/** The write-ahead log: one text line per `SET` or `DEL`, appended after the
    store has applied the operation, replayed into a store at start-up, and
    rewritten from the live keys by compaction. The log file is modelled as
    its text; every line of a recovery is applied at one time `now`. */
module Wal {
  import opened Wrappers
  import opened Seqs
  import opened PyText
  import opened LruStore
  import opened StoreProps

  datatype Record =
    | SetRecord(key: Key, value: Value, ttl: Option<int>)
    | DelRecord(key: Key)

  // ------------------------------------------------------------------
  // Writing

  /** `f"{ttl}"` for an optional TTL: Python prints a missing TTL as "None". */
  function TtlText(ttl: Option<int>): string {
    match ttl
    case None => "None"
    case Some(t) => IntToString(t)
  }

  /** The line `append_set` / `append_delete` writes, without its "\n": the
      fields joined by "|". */
  function Line(r: Record): (l: string)
    ensures r.SetRecord? ==> l == "SET|" + r.key + "|" + r.value + "|" + TtlText(r.ttl)
    ensures r.DelRecord? ==> l == "DEL|" + r.key
  {
    match r
    case SetRecord(k, v, ttl) => SetLine(k, v, TtlText(ttl)); Join(["SET", k, v, TtlText(ttl)], '|')
    case DelRecord(k) => DelLine(k); Join(["DEL", k], '|')
  }

  function Lines(rs: seq<Record>): (ls: seq<string>)
    ensures |ls| == |rs| && forall i :: 0 <= i < |rs| ==> ls[i] == Line(rs[i])
  {
    if |rs| == 0 then [] else [Line(rs[0])] + Lines(rs[1..])
  }

  /** The log file after appending the records `rs` to an empty file. */
  function Log(rs: seq<Record>): string {
    Terminated(Lines(rs))
  }

  /** One append: the record's line and a newline at the end of the file. */
  function Append(log: string, r: Record): (out: string)
    ensures |out| == |log| + |Line(r)| + 1 && out[..|log|] == log
    ensures out[|out| - 1] == '\n'
  {
    log + Line(r) + "\n"
  }

  /** Appending one record at a time builds the log of the whole sequence. */
  lemma AppendBuildsLog(rs: seq<Record>, r: Record)
    ensures Append(Log(rs), r) == Log(rs + [r])
  {
    assert Lines(rs + [r]) == Lines(rs) + [Line(r)];
    TerminatedSnoc(Lines(rs), Line(r));
  }

  // ------------------------------------------------------------------
  // Parsing one line of `recover`

  /** Why `recover` stops: a field index past the end of `split("|")`
      (an `IndexError`), or a TTL field `int()` rejects (a `ValueError`). */
  datatype ParseError = MissingField | BadTtl(field: string)

  datatype Parsed =
    | Blank                       // skipped: nothing but whitespace
    | Unknown(tag: string)        // skipped: neither SET nor DEL
    | Op(record: Record)
    | Malformed(error: ParseError)

  /** The TTL field: "None" means no TTL, anything else must be an integer. */
  function ParseTtl(field: string): (t: Option<Option<int>>)
    ensures field == "None" ==> t == Some(None)
    ensures t == Some(None) ==> field == "None"
    ensures forall n :: t == Some(Some(n)) ==> ParseInt(field) == Some(n)
    ensures field != "None" ==> (t.None? <==> ParseInt(field).None?)
  {
    if field == "None" then Some(None)
    else match ParseInt(field)
      case None => None
      case Some(n) => Some(Some(n))
  }

  /** One iteration of the loop in `recover`: strip the line, skip it when
      empty, split it on "|" and read the fields by position (extra fields
      are ignored). */
  function ParseLine(raw: string): (p: Parsed)
    ensures p.Blank? <==> AllSpace(raw)
    ensures p.Unknown? ==> p.tag != "SET" && p.tag != "DEL"
  {
    var line := Strip(raw);
    if |line| == 0 then Blank else ParseFields(Split(line, '|'))
  }

  /** The fields of a non-blank line, read by position: a `SET` needs four
      fields (tag, key, value, TTL) and a `DEL` two (tag, key); any field
      after those is ignored. */
  function ParseFields(parts: seq<string>): (p: Parsed)
    requires |parts| >= 1
    ensures !p.Blank?
    ensures p.Unknown? <==> parts[0] != "SET" && parts[0] != "DEL"
    ensures p.Unknown? ==> p.tag == parts[0]
    ensures p.Op? ==> (p.record.SetRecord? <==> parts[0] == "SET")
    // too few fields for the tag
    ensures p == Malformed(MissingField) <==>
      (parts[0] == "SET" && |parts| < 4) || (parts[0] == "DEL" && |parts| < 2)
    // a TTL field `int()` refuses
    ensures p.Malformed? && p.error.BadTtl? <==>
      parts[0] == "SET" && |parts| >= 4 && ParseTtl(parts[3]).None?
    ensures p.Malformed? && p.error.BadTtl? ==> p.error.field == parts[3]
    // the record is read from the key, value and TTL fields
    ensures p.Op? && p.record.SetRecord? ==>
      && |parts| >= 4 && p.record.key == parts[1] && p.record.value == parts[2]
      && ParseTtl(parts[3]) == Some(p.record.ttl)
    ensures p.Op? && p.record.DelRecord? ==> |parts| >= 2 && p.record.key == parts[1]
  {
    if parts[0] == "SET" then
      if |parts| < 4 then Malformed(MissingField)
      else match ParseTtl(parts[3])
        case None => Malformed(BadTtl(parts[3]))
        case Some(ttl) => Op(SetRecord(parts[1], parts[2], ttl))
    else if parts[0] == "DEL" then
      if |parts| < 2 then Malformed(MissingField)
      else Op(DelRecord(parts[1]))
    else Unknown(parts[0])
  }

  /** Fields after the ones a tag needs change nothing. */
  lemma ExtraFieldsIgnored(parts: seq<string>, extra: seq<string>)
    requires |parts| >= 1
    requires parts[0] == "SET" ==> |parts| >= 4
    requires parts[0] == "DEL" ==> |parts| >= 2
    ensures ParseFields(parts + extra) == ParseFields(parts)
  {
    var q := parts + extra;
    assert q[0] == parts[0];
    if parts[0] == "SET" {
      assert q[1] == parts[1] && q[2] == parts[2] && q[3] == parts[3];
    } else if parts[0] == "DEL" {
      assert q[1] == parts[1];
    }
  }

  /** A field that survives the round trip through a line: no separator and
      no line break inside. */
  predicate IsField(f: string) {
    '|' !in f && NoLineBreak(f)
  }

  /** A record whose line reads back as the same record. A `DEL` key must
      also not end in whitespace, since `strip()` would remove it. */
  predicate WellFormed(r: Record) {
    && IsField(r.key)
    && (r.SetRecord? ==> IsField(r.value))
    && (r.DelRecord? && |r.key| > 0 ==> !IsSpace(r.key[|r.key| - 1]))
  }

  /** The TTL text is a field that ends in a non-space character and reads
      back as the same TTL. */
  lemma TtlTextField(ttl: Option<int>)
    ensures IsField(TtlText(ttl))
    ensures |TtlText(ttl)| > 0 && !IsSpace(TtlText(ttl)[|TtlText(ttl)| - 1])
    ensures ParseTtl(TtlText(ttl)) == Some(ttl)
  {
    if ttl.Some? {
      IntTextField(ttl.value);
    }
  }

  lemma IntTextField(n: int)
    ensures IsField(IntToString(n)) && IntToString(n) != "None"
    ensures ParseTtl(IntToString(n)) == Some(Some(n))
  {
    var t := IntToString(n);
    assert t[0] != 'N';
    forall i | 0 <= i < |t| ensures t[i] != '|' && !IsLineBreak(t[i]) {
      assert IsDigit(t[i]) || t[i] == '-';
    }
    ParseIntToString(n);
  }

  lemma SetLine(k: Key, v: Value, t: string)
    ensures Join(["SET", k, v, t], '|') == "SET|" + k + "|" + v + "|" + t
  {
    assert [v, t][1..] == [t];
    assert Join([v, t], '|') == v + "|" + t;
    assert [k, v, t][1..] == [v, t];
    assert Join([k, v, t], '|') == k + "|" + v + "|" + t;
    assert ["SET", k, v, t][1..] == [k, v, t];
  }

  lemma DelLine(k: Key)
    ensures Join(["DEL", k], '|') == "DEL|" + k
  {
    assert ["DEL", k][1..] == [k];
  }

  /** Reading a well-formed record's line back gives the record. */
  lemma ParseLineOfRecord(r: Record)
    requires WellFormed(r)
    ensures ParseLine(Line(r) + "\n") == Op(r)
    ensures NoLineBreak(Line(r))
  {
    match r
    case SetRecord(k, v, ttl) => ParseSetLine(k, v, ttl);
    case DelRecord(k) => ParseDelLine(k);
  }

  lemma ParseSetLine(k: Key, v: Value, ttl: Option<int>)
    requires IsField(k) && IsField(v)
    ensures ParseLine(Line(SetRecord(k, v, ttl)) + "\n") == Op(SetRecord(k, v, ttl))
    ensures NoLineBreak(Line(SetRecord(k, v, ttl)))
  {
    SetFieldsSplit(k, v, ttl);
    SetFieldsParse(k, v, ttl);
  }

  lemma SetFieldsParse(k: Key, v: Value, ttl: Option<int>)
    ensures ParseFields(["SET", k, v, TtlText(ttl)]) == Op(SetRecord(k, v, ttl))
  {
    TtlTextField(ttl);
  }

  lemma SetFieldsSplit(k: Key, v: Value, ttl: Option<int>)
    requires IsField(k) && IsField(v)
    ensures ParseLine(Line(SetRecord(k, v, ttl)) + "\n") == ParseFields(["SET", k, v, TtlText(ttl)])
    ensures NoLineBreak(Line(SetRecord(k, v, ttl)))
  {
    var t := TtlText(ttl);
    var parts := ["SET", k, v, t];
    TtlTextField(ttl);
    SetLineEnds(k, v, t);
    SetFieldsSplitApart(k, v, t);
    ParseLineOf(Line(SetRecord(k, v, ttl)), parts);
  }

  /** A `SET` line starts with "S" and ends with the last character of its
      TTL text, or with "|" when that text is empty. */
  lemma SetLineEnds(k: Key, v: Value, t: string)
    requires |t| > 0 ==> !IsSpace(t[|t| - 1])
    ensures var l := Join(["SET", k, v, t], '|');
      |l| > 0 && !IsSpace(l[0]) && !IsSpace(l[|l| - 1])
  {
    SetLine(k, v, t);
  }

  /** A line that strips to itself (apart from its "\n") is read field by field. */
  lemma ParseLineOf(l: string, parts: seq<string>)
    requires |l| > 0 && !IsSpace(l[0]) && !IsSpace(l[|l| - 1])
    requires Split(l, '|') == parts
    ensures ParseLine(l + "\n") == ParseFields(parts)
  {
    assert AllSpace("\n");
    StripSurrounded("", l, "\n");
    assert "" + l + "\n" == l + "\n";
  }

  /** The fields of a `SET` or `DEL` line split back apart, and the line has
      no line break. */
  lemma FieldsSplit(parts: seq<string>)
    requires |parts| >= 1 && (parts[0] == "SET" || parts[0] == "DEL")
    requires forall i :: 1 <= i < |parts| ==> IsField(parts[i])
    ensures Split(Join(parts, '|'), '|') == parts
    ensures NoLineBreak(Join(parts, '|'))
  {
    TagsAreFields();
    forall i | 0 <= i < |parts| ensures '|' !in parts[i] && NoLineBreak(parts[i]) {
      assert IsField(parts[i]);
    }
    SplitJoin(parts, '|');
    JoinNoLineBreak(parts, '|');
  }

  /** `FieldsSplit` for the four fields of a `SET` line. */
  lemma SetFieldsSplitApart(k: Key, v: Value, t: string)
    requires IsField(k) && IsField(v) && IsField(t)
    ensures Split(Join(["SET", k, v, t], '|'), '|') == ["SET", k, v, t]
    ensures NoLineBreak(Join(["SET", k, v, t], '|'))
  {
    var parts := ["SET", k, v, t];
    forall i | 1 <= i < |parts| ensures IsField(parts[i]) {
      if i == 1 {
        assert parts[i] == k;
      } else if i == 2 {
        assert parts[i] == v;
      } else {
        assert parts[i] == t;
      }
    }
    FieldsSplit(parts);
  }

  lemma TagsAreFields()
    ensures IsField("SET") && IsField("DEL")
  {
    assert forall i :: 0 <= i < 3 ==> "SET"[i] != '|' && !IsLineBreak("SET"[i]);
    assert forall i :: 0 <= i < 3 ==> "DEL"[i] != '|' && !IsLineBreak("DEL"[i]);
  }

  lemma ParseDelLine(k: Key)
    requires IsField(k) && (|k| > 0 ==> !IsSpace(k[|k| - 1]))
    ensures ParseLine(Line(DelRecord(k)) + "\n") == Op(DelRecord(k))
    ensures NoLineBreak(Line(DelRecord(k)))
  {
    var parts := ["DEL", k];
    var l := Line(DelRecord(k));
    DelLine(k);
    assert l[0] == 'D';
    assert l[|l| - 1] == if |k| > 0 then k[|k| - 1] else '|';
    FieldsSplit(parts);
    ParseLineOf(l, parts);
  }

  // ------------------------------------------------------------------
  // Replay and recovery

  /** `store.set(...)` or `store.delete(...)` for one record. */
  function Apply(s: Store, r: Record, now: int): (t: Store)
    requires Valid(s)
    ensures Valid(t)
    ensures r.SetRecord? ==> r.key in t.entries && t.entries[r.key] == Entry(r.value, ExpiryFor(r.ttl, now))
    ensures r.DelRecord? ==> t.entries == s.entries - {r.key}
  {
    match r
    case SetRecord(k, v, ttl) => Set(s, k, v, ttl, now)
    case DelRecord(k) => Delete(s, k).store
  }

  /** The records applied in order. */
  function Replay(rs: seq<Record>, s: Store, now: int): (t: Store)
    requires Valid(s)
    ensures Valid(t) && t.capacity == s.capacity
    decreases |rs|
  {
    if |rs| == 0 then s else Replay(rs[1..], Apply(s, rs[0], now), now)
  }

  /** The store operations a replay makes, each at time `now`: `set` for a
      `SET` record and `delete` for a `DEL` record. */
  function AsEvents(rs: seq<Record>, now: int): (evs: seq<Event>)
    ensures |evs| == |rs|
    ensures forall i :: 0 <= i < |rs| ==> evs[i].now == now
    ensures forall i :: 0 <= i < |rs| ==>
      evs[i].op == (if rs[i].SetRecord? then SetOp(rs[i].key, rs[i].value, rs[i].ttl) else DeleteOp(rs[i].key))
  {
    seq(|rs|, i requires 0 <= i < |rs| =>
      Event(if rs[i].SetRecord? then SetOp(rs[i].key, rs[i].value, rs[i].ttl) else DeleteOp(rs[i].key), now))
  }

  /** Replaying records is a run of the store's own `set` and `delete`, so
      every property of runs holds for a recovered store. */
  lemma {:induction false} ReplayIsRun(rs: seq<Record>, s: Store, now: int)
    requires Valid(s)
    ensures Replay(rs, s, now) == Run(s, AsEvents(rs, now))
    decreases |rs|
  {
    if |rs| > 0 {
      var evs := AsEvents(rs, now);
      assert evs[1..] == AsEvents(rs[1..], now);
      assert Step(s, evs[0].op, now) == Apply(s, rs[0], now);
      ReplayIsRun(rs[1..], Apply(s, rs[0], now), now);
    }
  }

  /** Replay never fills a store beyond its capacity (or beyond one key,
      for a capacity below one). */
  lemma ReplayBound(rs: seq<Record>, s: Store, now: int)
    requires Valid(s) && |s.entries| <= Max(s.capacity, 1)
    ensures |Replay(rs, s, now).entries| <= Max(s.capacity, 1)
    ensures s.capacity >= 1 ==> WithinCapacity(Replay(rs, s, now))
  {
    ReplayIsRun(rs, s, now);
    RunBound(s, AsEvents(rs, now));
  }

  /** Every line of the file parsed, in file order. */
  function ParseAll(lines: seq<string>): (ps: seq<Parsed>)
    ensures |ps| == |lines|
    ensures forall i :: 0 <= i < |lines| ==> ps[i] == ParseLine(lines[i])
  {
    seq(|lines|, i requires 0 <= i < |lines| => ParseLine(lines[i]))
  }

  /** The records of the lines that parse as operations, in file order. */
  function Ops(ps: seq<Parsed>): seq<Record> {
    if |ps| == 0 then []
    else (if ps[0].Op? then [ps[0].record] else []) + Ops(ps[1..])
  }

  /** The end of `recover`: the whole file replayed, or an exception raised at
      a 0-based line index, leaving the store as the earlier lines made it. */
  datatype Recovery =
    | Recovered(store: Store)
    | Aborted(line: nat, error: ParseError, store: Store)

  function Later(r: Recovery): Recovery {
    if r.Aborted? then r.(line := r.line + 1) else r
  }

  /** The loop of `recover` over the parsed lines. */
  function RecoverParsed(ps: seq<Parsed>, s: Store, now: int): (r: Recovery)
    requires Valid(s)
    ensures Valid(r.store)
    ensures r.Recovered? <==> NoMalformed(ps)
    ensures r.Aborted? ==> r.line < |ps| && ps[r.line] == Malformed(r.error) && NoMalformed(ps[..r.line])
    decreases |ps|
  {
    if |ps| == 0 then Recovered(s)
    else match ps[0]
      case Blank =>
        var r := RecoverParsed(ps[1..], s, now);
        LaterFacts(ps, r);
        Later(r)
      case Unknown(_) =>
        var r := RecoverParsed(ps[1..], s, now);
        LaterFacts(ps, r);
        Later(r)
      case Op(rec) =>
        var r := RecoverParsed(ps[1..], Apply(s, rec, now), now);
        LaterFacts(ps, r);
        Later(r)
      case Malformed(e) => Aborted(0, e, s)
  }

  /** What the recovery of the lines after a line that is not malformed says
      about all the lines. */
  lemma LaterFacts(ps: seq<Parsed>, r: Recovery)
    requires |ps| > 0 && !ps[0].Malformed?
    requires r.Recovered? <==> NoMalformed(ps[1..])
    requires r.Aborted? ==>
      r.line < |ps| - 1 && ps[1..][r.line] == Malformed(r.error) && NoMalformed(ps[1..][..r.line])
    ensures Later(r).Recovered? <==> NoMalformed(ps)
    ensures Later(r).Aborted? ==>
      && Later(r).line < |ps| && ps[Later(r).line] == Malformed(Later(r).error)
      && NoMalformed(ps[..Later(r).line])
  {
    NoMalformedPrepend(ps[0], ps[1..]);
    assert ps == [ps[0]] + ps[1..];
    if r.Aborted? {
      NoMalformedPrepend(ps[0], ps[1..][..r.line]);
      assert ps[..r.line + 1] == [ps[0]] + ps[1..][..r.line];
    }
  }

  /** `recover(store)`: read the log file's lines and apply them to `store`.
      It completes exactly when no line is malformed; otherwise it stops at
      the first malformed line with that line's error. */
  function Recover(text: string, s: Store, now: int): (r: Recovery)
    requires Valid(s)
    ensures Valid(r.store)
    ensures r.Recovered? <==> WellFormedLines(ReadLines(text))
    ensures r.Aborted? ==>
      && r.line < |ReadLines(text)| && ParseLine(ReadLines(text)[r.line]) == Malformed(r.error)
      && WellFormedLines(ReadLines(text)[..r.line])
  {
    var lines := ReadLines(text);
    var ps := ParseAll(lines);
    var r := RecoverParsed(ps, s, now);
    ParsedLines(lines, ps, r);
    r
  }

  /** The facts `RecoverParsed` states about parsed lines, stated about the
      lines themselves. */
  lemma ParsedLines(lines: seq<string>, ps: seq<Parsed>, r: Recovery)
    requires |ps| == |lines| && forall i :: 0 <= i < |lines| ==> ps[i] == ParseLine(lines[i])
    requires r.Recovered? <==> NoMalformed(ps)
    requires r.Aborted? ==> r.line < |ps| && ps[r.line] == Malformed(r.error) && NoMalformed(ps[..r.line])
    ensures r.Recovered? <==> WellFormedLines(lines)
    ensures r.Aborted? ==>
      && r.line < |lines| && ParseLine(lines[r.line]) == Malformed(r.error)
      && WellFormedLines(lines[..r.line])
  {
    if r.Aborted? {
      forall i | 0 <= i < r.line ensures !ParseLine(lines[..r.line][i]).Malformed? {
        assert ps[..r.line][i] == ps[i];
      }
    }
  }

  /** No line is malformed (blank and unknown lines are fine). */
  predicate WellFormedLines(lines: seq<string>) {
    forall i :: 0 <= i < |lines| ==> !ParseLine(lines[i]).Malformed?
  }

  predicate NoMalformed(ps: seq<Parsed>) {
    forall i :: 0 <= i < |ps| ==> !ps[i].Malformed?
  }

  lemma NoMalformedPrepend(x: Parsed, t: seq<Parsed>)
    ensures NoMalformed([x] + t) <==> !x.Malformed? && NoMalformed(t)
  {
    var u := [x] + t;
    assert u[0] == x;
    if NoMalformed(u) {
      forall i | 0 <= i < |t| ensures !t[i].Malformed? {
        assert t[i] == u[i + 1];
      }
    }
  }

  /** Without a malformed line, recovery is the replay of the operation lines;
      blank and unknown lines change nothing. */
  lemma {:induction false} RecoverIsReplay(ps: seq<Parsed>, s: Store, now: int)
    requires Valid(s) && NoMalformed(ps)
    ensures RecoverParsed(ps, s, now) == Recovered(Replay(Ops(ps), s, now))
    decreases |ps|
  {
    if |ps| > 0 {
      assert NoMalformed(ps[1..]) by {
        forall i | 0 <= i < |ps| - 1 ensures !ps[1..][i].Malformed? {
          assert ps[1..][i] == ps[i + 1];
        }
      }
      var s1 := if ps[0].Op? then Apply(s, ps[0].record, now) else s;
      RecoverIsReplay(ps[1..], s1, now);
      ReplayPastLine(ps, s, now);
    }
  }

  /** At the first malformed line recovery stops with that line's error; the
      store holds the replay of the operation lines before it, and no later
      line is applied. */
  lemma {:induction false} RecoverStopsAtFirstError(ps: seq<Parsed>, s: Store, now: int, i: nat)
    requires Valid(s) && i < |ps| && ps[i].Malformed?
    requires NoMalformed(ps[..i])
    ensures RecoverParsed(ps, s, now) == Aborted(i, ps[i].error, Replay(Ops(ps[..i]), s, now))
    decreases i
  {
    if i == 0 {
      assert ps[..0] == [];
    } else {
      var tail := ps[1..];
      BeforeError(ps, i);
      var s1 := if ps[0].Op? then Apply(s, ps[0].record, now) else s;
      RecoverStopsAtFirstError(tail, s1, now, i - 1);
      RecoverPastLine(ps, s, now);
      ReplayPastLine(ps[..i], s, now);
    }
  }

  /** The lines before an error, seen from the second line on. */
  lemma BeforeError(ps: seq<Parsed>, i: nat)
    requires 0 < i < |ps| && NoMalformed(ps[..i])
    ensures !ps[0].Malformed? && ps[1..][i - 1] == ps[i]
    ensures ps[..i][1..] == ps[1..][..i - 1] && NoMalformed(ps[1..][..i - 1])
  {
    assert ps[0] == ps[..i][0];
    var before := ps[1..][..i - 1];
    forall j | 0 <= j < i - 1 ensures !before[j].Malformed? {
      assert before[j] == ps[..i][j + 1];
    }
  }

  /** A well-formed first line is applied (or skipped) and recovery goes on
      with the rest, one line further down. */
  lemma RecoverPastLine(ps: seq<Parsed>, s: Store, now: int)
    requires Valid(s) && |ps| > 0 && !ps[0].Malformed?
    ensures RecoverParsed(ps, s, now)
         == Later(RecoverParsed(ps[1..], if ps[0].Op? then Apply(s, ps[0].record, now) else s, now))
  {
  }

  /** Replaying the operations of some lines is replaying those after the
      first line from the store the first line leaves. */
  lemma ReplayPastLine(ps: seq<Parsed>, s: Store, now: int)
    requires Valid(s) && |ps| > 0
    ensures Replay(Ops(ps), s, now)
         == Replay(Ops(ps[1..]), if ps[0].Op? then Apply(s, ps[0].record, now) else s, now)
  {
    if ps[0].Op? {
      assert ([ps[0].record] + Ops(ps[1..]))[1..] == Ops(ps[1..]);
    } else {
      assert [] + Ops(ps[1..]) == Ops(ps[1..]);
    }
  }

  /** The parsed lines of a log holding the records `rs`. */
  function AsOps(rs: seq<Record>): (ps: seq<Parsed>)
    ensures |ps| == |rs| && forall i :: 0 <= i < |rs| ==> ps[i] == Op(rs[i])
  {
    seq(|rs|, i requires 0 <= i < |rs| => Op(rs[i]))
  }

  lemma {:induction false} OpsOfRecords(rs: seq<Record>)
    ensures NoMalformed(AsOps(rs)) && Ops(AsOps(rs)) == rs
    decreases |rs|
  {
    if |rs| > 0 {
      OpsOfRecords(rs[1..]);
      assert AsOps(rs)[1..] == AsOps(rs[1..]);
      assert rs == [rs[0]] + rs[1..];
    }
  }

  /** Recovering a log written by appends replays exactly the appended
      records, when every record is well-formed. */
  lemma LogRoundTrip(rs: seq<Record>, s: Store, now: int)
    requires Valid(s)
    requires forall i :: 0 <= i < |rs| ==> WellFormed(rs[i])
    ensures Recover(Log(rs), s, now) == Recovered(Replay(rs, s, now))
  {
    var ls := Lines(rs);
    forall i | 0 <= i < |ls| ensures NoLineBreak(ls[i]) {
      ParseLineOfRecord(rs[i]);
    }
    ReadTerminated(ls);
    var lines := WithNewlines(ls);
    forall i | 0 <= i < |rs| ensures ParseLine(lines[i]) == Op(rs[i]) {
      ParseLineOfRecord(rs[i]);
    }
    assert ParseAll(lines) == AsOps(rs);
    OpsOfRecords(rs);
    RecoverIsReplay(AsOps(rs), s, now);
  }

  /** A `SET` line whose TTL field is neither an integer nor "None" stops
      recovery at that line, whatever follows it. The field reported is the
      text after the last "|" without the whitespace `strip()` removes from
      the end of the line. */
  lemma BadTtlAborts(k: Key, v: Value, t: string, rest: string, s: Store, now: int)
    requires Valid(s) && IsField(k) && IsField(v) && IsField(t) && ParseTtl(StripEnd(t)).None?
    ensures Recover("SET|" + k + "|" + v + "|" + t + "\n" + rest, s, now)
         == Aborted(0, BadTtl(StripEnd(t)), s)
  {
    BadTtlLine(k, v, t);
    FirstLineAborts("SET|" + k + "|" + v + "|" + t, rest, s, now);
  }

  /** A log of one well-formed line applies its record and completes. */
  lemma OneLineRecovers(l: string, rec: Record, s: Store, now: int)
    requires Valid(s) && NoLineBreak(l) && ParseLine(l + "\n") == Op(rec)
    ensures Recover(l + "\n", s, now) == Recovered(Apply(s, rec, now))
  {
    OnlyLine(l);
    ParseOne(l + "\n");
    OneOpRecovers(rec, s, now);
  }

  lemma ParseOne(line: string)
    ensures ParseAll([line]) == [ParseLine(line)]
  {
  }

  lemma OneOpRecovers(rec: Record, s: Store, now: int)
    requires Valid(s)
    ensures RecoverParsed([Op(rec)], s, now) == Recovered(Apply(s, rec, now))
  {
    assert [Op(rec)][1..] == [];
  }

  /** A `SET` line with a fifth field reads as its first four fields. */
  lemma SetExtraFieldLine(k: Key, v: Value, f: string, x: string, ttl: Option<int>)
    requires IsField(k) && IsField(v) && IsField(f) && IsField(x)
    requires |x| > 0 && !IsSpace(x[|x| - 1])
    requires ParseTtl(f) == Some(ttl)
    ensures var l := "SET|" + k + "|" + v + "|" + f + "|" + x;
      NoLineBreak(l) && ParseLine(l + "\n") == Op(SetRecord(k, v, ttl))
  {
    var l := "SET|" + k + "|" + v + "|" + f + "|" + x;
    var four := ["SET", k, v, f];
    SetExtraSplit(k, v, f, x);
    ParseLineOf(l, four + [x]);
    ExtraFieldsIgnored(four, [x]);
    assert ParseFields(four) == Op(SetRecord(k, v, ttl));
  }

  lemma SetExtraSplit(k: Key, v: Value, f: string, x: string)
    requires IsField(k) && IsField(v) && IsField(f) && IsField(x)
    requires |x| > 0 && !IsSpace(x[|x| - 1])
    ensures var l := "SET|" + k + "|" + v + "|" + f + "|" + x;
      && NoLineBreak(l) && Split(l, '|') == ["SET", k, v, f] + [x]
      && |l| > 0 && !IsSpace(l[0]) && !IsSpace(l[|l| - 1])
  {
    var l := "SET|" + k + "|" + v + "|" + f + "|" + x;
    var parts := ["SET", k, v, f] + [x];
    SetExtraJoin(k, v, f, x);
    forall i | 1 <= i < |parts| ensures IsField(parts[i]) {
      if i == 1 {
        assert parts[i] == k;
      } else if i == 2 {
        assert parts[i] == v;
      } else if i == 3 {
        assert parts[i] == f;
      } else {
        assert parts[i] == x;
      }
    }
    FieldsSplit(parts);
    assert l[0] == 'S' && l[|l| - 1] == x[|x| - 1];
  }

  /** A `DEL` line with a third field deletes its key. */
  lemma DelExtraFieldLine(k: Key, x: string)
    requires IsField(k) && IsField(x)
    requires |x| > 0 && !IsSpace(x[|x| - 1])
    ensures var l := "DEL|" + k + "|" + x;
      NoLineBreak(l) && ParseLine(l + "\n") == Op(DelRecord(k))
  {
    var l := "DEL|" + k + "|" + x;
    var parts := ["DEL", k, x];
    DelExtraJoin(k, x);
    forall i | 1 <= i < |parts| ensures IsField(parts[i]) {
      if i == 1 {
        assert parts[i] == k;
      } else {
        assert parts[i] == x;
      }
    }
    FieldsSplit(parts);
    assert l[0] == 'D' && l[|l| - 1] == x[|x| - 1];
    ParseLineOf(l, parts);
  }

  lemma SetExtraJoin(k: Key, v: Value, f: string, x: string)
    ensures Join(["SET", k, v, f] + [x], '|') == "SET|" + k + "|" + v + "|" + f + "|" + x
  {
    SetLine(k, v, f);
    JoinSnoc(["SET", k, v, f], '|', x);
  }

  lemma DelExtraJoin(k: Key, x: string)
    ensures Join(["DEL", k, x], '|') == "DEL|" + k + "|" + x
  {
    assert [k, x][1..] == [x];
    assert Join([k, x], '|') == k + "|" + x;
    assert ["DEL", k, x][1..] == [k, x];
  }

  /** For instance "SET|k|v|5|x" sets k to v for five seconds. */
  lemma SetExtraField(s: Store, now: int)
    requires Valid(s)
    ensures ParseLine("SET|k|v|5|x\n") == Op(SetRecord("k", "v", Some(5)))
    ensures var r := Recover("SET|k|v|5|x\n", s, now);
      && r == Recovered(Apply(s, SetRecord("k", "v", Some(5)), now))
      && r.store.entries["k"] == Entry("v", Some(now + 5))
  {
    SetExtraLine();
    OneLineRecovers("SET|k|v|5|x", SetRecord("k", "v", Some(5)), s, now);
  }

  lemma SetExtraLine()
    ensures NoLineBreak("SET|k|v|5|x") && "SET|k|v|5|x" + "\n" == "SET|k|v|5|x\n"
    ensures ParseLine("SET|k|v|5|x\n") == Op(SetRecord("k", "v", Some(5)))
  {
    SetExtraText();
    assert IsField("k") && IsField("v") && IsField("5") && IsField("x");
    FiveTtl();
    SetExtraFieldLine("k", "v", "5", "x", Some(5));
  }

  lemma SetExtraText()
    ensures "SET|" + "k" + "|" + "v" + "|" + "5" + "|" + "x" == "SET|k|v|5|x"
    ensures "SET|k|v|5|x" + "\n" == "SET|k|v|5|x\n"
  {
  }

  lemma FiveTtl()
    ensures ParseTtl("5") == Some(Some(5))
  {
    assert "" + "5" + "" == "5";
    assert DigitsValue("5") == 5 by {
      assert "5"[..0] == "";
    }
    DigitsSurrounded("", "5", "");
  }

  /** For instance "DEL|k|x" deletes k. */
  lemma DelExtraField(s: Store, now: int)
    requires Valid(s)
    ensures ParseLine("DEL|k|x\n") == Op(DelRecord("k"))
    ensures var r := Recover("DEL|k|x\n", s, now);
      && r == Recovered(Apply(s, DelRecord("k"), now))
      && r.store.entries == s.entries - {"k"}
  {
    DelExtraLine();
    OneLineRecovers("DEL|k|x", DelRecord("k"), s, now);
  }

  lemma DelExtraLine()
    ensures NoLineBreak("DEL|k|x") && "DEL|k|x" + "\n" == "DEL|k|x\n"
    ensures ParseLine("DEL|k|x\n") == Op(DelRecord("k"))
  {
    DelExtraText();
    assert IsField("k") && IsField("x");
    DelExtraFieldLine("k", "x");
  }

  lemma DelExtraText()
    ensures "DEL|" + "k" + "|" + "x" == "DEL|k|x"
    ensures "DEL|k|x" + "\n" == "DEL|k|x\n"
  {
  }

  /** A TTL that arrived as a float is logged as, say, "1.5"; `int()` refuses
      it, so recovery stops at that line. */
  lemma FloatTtlAborts(rest: string, s: Store, now: int)
    requires Valid(s)
    ensures Recover("SET|k|v|1.5\n" + rest, s, now) == Aborted(0, BadTtl("1.5"), s)
  {
    assert "SET|" + "k" + "|" + "v" + "|" + "1.5" + "\n" + rest == "SET|k|v|1.5\n" + rest;
    assert IsField("k") && IsField("v") && IsField("1.5");
    FloatTtlRefused();
    BadTtlAborts("k", "v", "1.5", rest, s, now);
  }

  /** "1.5" has no whitespace to strip and is not a TTL. */
  lemma FloatTtlRefused()
    ensures StripEnd("1.5") == "1.5" && ParseTtl("1.5").None?
  {
    FloatStripEnd();
    FloatNotInt();
  }

  lemma FloatStripEnd()
    ensures StripEnd("1.5") == "1.5"
  {
    var t := "1.5";
    assert !IsSpace(t[2]);
  }

  /** U+001C before the digits survives `strip()` inside the line but not
      `int()`, so recovery stops at that line. */
  lemma SeparatorTtlAborts(rest: string, s: Store, now: int)
    requires Valid(s)
    ensures Recover("SET|k|v|\U{1C}5\n" + rest, s, now) == Aborted(0, BadTtl("\U{1C}5"), s)
  {
    assert "SET|" + "k" + "|" + "v" + "|" + "\U{1C}5" + "\n" + rest == "SET|k|v|\U{1C}5\n" + rest;
    assert IsField("k") && IsField("v") && IsField("\U{1C}5");
    SeparatorTtlRefused();
    BadTtlAborts("k", "v", "\U{1C}5", rest, s, now);
  }

  lemma SeparatorTtlRefused()
    ensures StripEnd("\U{1C}5") == "\U{1C}5" && ParseTtl("\U{1C}5").None?
  {
    var t := "\U{1C}5";
    assert !IsSpace(t[1]);
    SeparatorRejected();
  }

  /** A malformed first line aborts recovery before anything is applied. */
  lemma FirstLineAborts(l: string, rest: string, s: Store, now: int)
    requires Valid(s) && NoLineBreak(l) && ParseLine(l + "\n").Malformed?
    ensures Recover(l + "\n" + rest, s, now) == Aborted(0, ParseLine(l + "\n").error, s)
  {
    ReadFirstLine(l, rest);
    var ps := ParseAll(ReadLines(l + "\n" + rest));
    assert ps[0] == ParseLine(l + "\n");
  }

  lemma BadTtlLine(k: Key, v: Value, t: string)
    requires IsField(k) && IsField(v) && IsField(t) && ParseTtl(StripEnd(t)).None?
    ensures NoLineBreak("SET|" + k + "|" + v + "|" + t)
    ensures ParseLine("SET|" + k + "|" + v + "|" + t + "\n") == Malformed(BadTtl(StripEnd(t)))
  {
    SetLine(k, v, t);
    SetFieldsSplitApart(k, v, t);
    var f := StripEnd(t);
    StripEndField(t);
    SetPaddedLine(k, v, f, t[|f|..] + "\n");
    PaddedSetLine(k, v, f, t[|f|..]);
    assert ParseFields(["SET", k, v, f]) == Malformed(BadTtl(f)) by {
      assert ["SET", k, v, f][3] == f;
    }
  }

  lemma PaddedSetLine(k: Key, v: Value, f: string, w: string)
    ensures "SET|" + k + "|" + v + "|" + (f + w) + "\n" == ("SET|" + k + "|" + v + "|" + f) + (w + "\n")
  {
  }

  /** The field without its trailing whitespace is still a field, and what
      `rstrip()` removed, followed by "\n", is whitespace. */
  lemma StripEndField(t: string)
    requires IsField(t)
    ensures IsField(StripEnd(t))
    ensures t == StripEnd(t) + t[|StripEnd(t)|..]
    ensures AllSpace(t[|StripEnd(t)|..] + "\n")
  {
    var f := StripEnd(t);
    var w := t[|f|..];
    assert t == f + w;
    assert IsField(f) by {
      forall i | 0 <= i < |f| ensures f[i] == t[i] && f[i] != '|' && !IsLineBreak(f[i]) {
      }
    }
    var tail := w + "\n";
    forall i | 0 <= i < |tail| ensures IsSpace(tail[i]) {
      if i < |w| {
        assert tail[i] == w[i];
      }
    }
  }

  /** A `SET` line followed by whitespace is read field by field. */
  lemma SetPaddedLine(k: Key, v: Value, f: string, tail: string)
    requires IsField(k) && IsField(v) && IsField(f) && AllSpace(tail)
    requires |f| > 0 ==> !IsSpace(f[|f| - 1])
    ensures ParseLine(("SET|" + k + "|" + v + "|" + f) + tail) == ParseFields(["SET", k, v, f])
  {
    var m := "SET|" + k + "|" + v + "|" + f;
    assert Strip(m + tail) == m by {
      SetLine(k, v, f);
      SetLineEnds(k, v, f);
      StripSurrounded("", m, tail);
      assert "" + m + tail == m + tail;
    }
    assert Split(m, '|') == ["SET", k, v, f] by {
      SetLine(k, v, f);
      SetFieldsSplitApart(k, v, f);
    }
  }

  // ------------------------------------------------------------------
  // Compaction

  /** What compaction writes and the store it leaves behind (it reads the
      store through `get`, which counts and may delete). */
  datatype Compaction = Compaction(records: seq<Record>, store: Store)

  /** `f"{value}"` for the result of `get`: a missing value prints as "None". */
  function ValueText(v: Option<Value>): Value {
    match v
    case None => "None"
    case Some(x) => x
  }

  /** The record compaction writes for key `k` of store `s` at `now`: a live
      key with its value and remaining TTL; an expired key as the value
      "None" with no TTL, because `get` deletes it before `ttl_remaining`
      looks. */
  function Snapshot(s: Store, k: Key, now: int): Record {
    if k in s.entries && !IsExpired(s.entries[k], now) then
      var e := s.entries[k];
      SetRecord(k, e.value, if e.expiry.Some? then Some(e.expiry.value - now) else None)
    else SetRecord(k, "None", None)
  }

  /** The keys whose entry has not expired at `now`. */
  function LiveSet(s: Store, now: int): (live: set<Key>)
    ensures forall k :: k in live <==> k in s.entries && !IsExpired(s.entries[k], now)
  {
    s.entries.Keys - ExpiredKeys(s, now)
  }

  /** The loop of `compact` over a snapshot of the keys. Each `get` counts a
      hit and moves a live key to the front of the recency list, or counts a
      miss; an expired key is also deleted, with one TTL expiration and a
      second operation. So the visited live keys end up at the front, the
      last visited first, and the keys not visited keep their order behind
      them. */
  function CompactKeys(ks: seq<Key>, s: Store, now: int): (c: Compaction)
    requires Valid(s) && Distinct(ks)
    ensures Valid(c.store)
    ensures |c.records| == |ks|
    ensures forall i :: 0 <= i < |ks| ==> c.records[i] == Snapshot(s, ks[i], now)
    ensures c.store.entries == s.entries - (Elems(ks) * ExpiredKeys(s, now))
    ensures c.store.capacity == s.capacity && c.store.startTime == s.startTime
    ensures GetCounts(s, c.store, |KeepOnly(ks, LiveSet(s, now))|, |ks|, |KeepOnly(ks, ExpiredKeys(s, now))|)
    ensures c.store.order == KeepOnly(s.order, c.store.entries.Keys)
    ensures c.store.recency
         == Reverse(KeepOnly(ks, LiveSet(s, now))) + KeepOnly(s.recency, c.store.entries.Keys - Elems(ks))
    decreases |ks|
  {
    if |ks| == 0 then
      CompactNothing(ks, s, now);
      Compaction([], s)
    else
      var k := ks[0];
      var l := Get(s, k, now);
      var rec := SetRecord(k, ValueText(l.value), TtlRemaining(l.store, k, now));
      DistinctTail(ks);
      var rest := CompactKeys(ks[1..], l.store, now);
      CompactStep(ks, s, now, l.store, rest.records);
      CompactStoreStep(ks, s, now, l.store, rest.store);
      Compaction([rec] + rest.records, rest.store)
  }

  /** The store `CompactKeys` leaves after visiting `ks`, as its contract
      states it. */
  ghost predicate CompactedStore(ks: seq<Key>, s: Store, now: int, r: Store)
    requires Valid(s)
  {
    && r.entries == s.entries - (Elems(ks) * ExpiredKeys(s, now))
    && r.capacity == s.capacity && r.startTime == s.startTime
    && GetCounts(s, r, |KeepOnly(ks, LiveSet(s, now))|, |ks|, |KeepOnly(ks, ExpiredKeys(s, now))|)
    && r.order == KeepOnly(s.order, r.entries.Keys)
    && r.recency == Reverse(KeepOnly(ks, LiveSet(s, now))) + KeepOnly(s.recency, r.entries.Keys - Elems(ks))
  }

  /** Visiting no key leaves the store as it is. */
  lemma CompactNothing(ks: seq<Key>, s: Store, now: int)
    requires Valid(s) && |ks| == 0
    ensures CompactedStore(ks, s, now, s)
  {
    assert ks == [];
    assert Elems(ks) == {};
    assert s.entries - (Elems(ks) * ExpiredKeys(s, now)) == s.entries;
    assert KeepOnly(ks, LiveSet(s, now)) == [] && KeepOnly(ks, ExpiredKeys(s, now)) == [];
    assert s.order == KeepOnly(s.order, s.entries.Keys) by {
      KeepOnlyAll(s.order, s.entries.Keys);
    }
    assert s.recency == Reverse([]) + KeepOnly(s.recency, s.entries.Keys - {}) by {
      KeepOnlyAll(s.recency, s.entries.Keys);
      assert s.entries.Keys - {} == s.entries.Keys;
    }
  }

  /** The store step of `CompactKeys`: `get` of the first key, then the
      rest of the loop. */
  lemma CompactStoreStep(ks: seq<Key>, s: Store, now: int, s1: Store, r: Store)
    requires Valid(s) && |ks| > 0 && ks[0] !in ks[1..]
    requires s1 == Get(s, ks[0], now).store
    requires CompactedStore(ks[1..], s1, now, r)
    ensures CompactedStore(ks, s, now, r)
  {
    LaterEntries(ks, s, now, s1);
    assert r.capacity == s.capacity && r.startTime == s.startTime;
    CompactCounts(ks, s, now, s1, r);
    CompactOrder(ks, s, now, s1, r);
    CompactRecency(ks, s, now, s1, r);
  }

  /** `r` is `s` after `n` calls of `get`, `live` of which found a live key
      and `expired` of which found, and deleted, an expired one. */
  ghost predicate GetCounts(s: Store, r: Store, live: int, n: int, expired: int) {
    && r.cacheHits == s.cacheHits + live
    && r.cacheMisses == s.cacheMisses + n - live
    && r.ttlExpirations == s.ttlExpirations + expired
    && r.totalOps == s.totalOps + n + expired
    && r.evictions == s.evictions
  }

  /** `get` of a key leaves the keys that are expired, apart from that key. */
  lemma ExpiredAfterGet(s: Store, k: Key, now: int)
    requires Valid(s)
    ensures ExpiredKeys(Get(s, k, now).store, now) == ExpiredKeys(s, now) - {k}
    ensures LiveSet(Get(s, k, now).store, now) == LiveSet(s, now)
  {
    LiveKept(s, k, now);
  }

  /** Filtering a sequence looks at its head, then at the rest. */
  lemma KeepOnlyHead(ks: seq<Key>, keep: set<Key>)
    requires |ks| > 0
    ensures KeepOnly(ks, keep) == (if ks[0] in keep then [ks[0]] else []) + KeepOnly(ks[1..], keep)
  {
  }

  /** The counter step of `CompactKeys`. */
  lemma CompactCounts(ks: seq<Key>, s: Store, now: int, s1: Store, r: Store)
    requires Valid(s) && |ks| > 0 && ks[0] !in ks[1..]
    requires s1 == Get(s, ks[0], now).store
    requires GetCounts(s1, r, |KeepOnly(ks[1..], LiveSet(s1, now))|, |ks| - 1,
                       |KeepOnly(ks[1..], ExpiredKeys(s1, now))|)
    ensures GetCounts(s, r, |KeepOnly(ks, LiveSet(s, now))|, |ks|, |KeepOnly(ks, ExpiredKeys(s, now))|)
  {
    var k := ks[0];
    ExpiredAfterGet(s, k, now);
    KeepOnlySame(ks[1..], ExpiredKeys(s1, now), ExpiredKeys(s, now));
    KeepOnlyHead(ks, LiveSet(s, now));
    KeepOnlyHead(ks, ExpiredKeys(s, now));
  }

  /** The `keys()` order step of `CompactKeys`. */
  lemma CompactOrder(ks: seq<Key>, s: Store, now: int, s1: Store, r: Store)
    requires Valid(s) && |ks| > 0
    requires s1 == Get(s, ks[0], now).store
    requires r.entries.Keys <= s1.entries.Keys
    requires r.order == KeepOnly(s1.order, r.entries.Keys)
    ensures r.order == KeepOnly(s.order, r.entries.Keys)
  {
    if s1.entries != s.entries {
      KeepOnlyWithout(s.order, ks[0], r.entries.Keys);
    }
  }

  /** The recency step of `CompactKeys`. */
  lemma CompactRecency(ks: seq<Key>, s: Store, now: int, s1: Store, r: Store)
    requires Valid(s) && |ks| > 0 && ks[0] !in ks[1..]
    requires s1 == Get(s, ks[0], now).store
    requires r.entries == s1.entries - (Elems(ks[1..]) * ExpiredKeys(s1, now))
    requires r.recency
          == Reverse(KeepOnly(ks[1..], LiveSet(s1, now))) + KeepOnly(s1.recency, r.entries.Keys - Elems(ks[1..]))
    ensures r.recency
         == Reverse(KeepOnly(ks, LiveSet(s, now))) + KeepOnly(s.recency, r.entries.Keys - Elems(ks))
  {
    var k := ks[0];
    ExpiredAfterGet(s, k, now);
    if k in LiveSet(s, now) {
      assert k in r.entries;
      VisitedLive(ks, LiveSet(s, now), r.entries.Keys, s.recency, s1.recency, r.recency);
    } else {
      assert k !in r.entries;
      VisitedGone(ks, LiveSet(s, now), r.entries.Keys, s.recency, s1.recency, r.recency);
    }
  }

  /** `CompactRecency` for a live key, which `get` moved to the front. */
  lemma VisitedLive(ks: seq<Key>, live: set<Key>, left: set<Key>, before: seq<Key>, after: seq<Key>,
                    rec: seq<Key>)
    requires |ks| > 0 && ks[0] !in ks[1..] && ks[0] in live && ks[0] in left
    requires after == [ks[0]] + Without(before, ks[0])
    requires rec == Reverse(KeepOnly(ks[1..], live)) + KeepOnly(after, left - Elems(ks[1..]))
    ensures rec == Reverse(KeepOnly(ks, live)) + KeepOnly(before, left - Elems(ks))
  {
    var k := ks[0];
    var x1 := left - Elems(ks[1..]);
    var x := left - Elems(ks);
    ElemsCons(ks);
    KeepOnlyHead(ks, live);
    LiveRecency(k, before, after, x1, x);
    RecencyFront(ks, live, before, x, rec);
  }

  /** `CompactRecency` for an absent or expired key, which `get` left out of
      the recency list. */
  lemma VisitedGone(ks: seq<Key>, live: set<Key>, left: set<Key>, before: seq<Key>, after: seq<Key>,
                    rec: seq<Key>)
    requires |ks| > 0 && ks[0] !in live && ks[0] !in left
    requires after == before || after == Without(before, ks[0])
    requires rec == Reverse(KeepOnly(ks[1..], live)) + KeepOnly(after, left - Elems(ks[1..]))
    ensures rec == Reverse(KeepOnly(ks, live)) + KeepOnly(before, left - Elems(ks))
  {
    var k := ks[0];
    var x := left - Elems(ks);
    ElemsCons(ks);
    KeepOnlyHead(ks, live);
    assert left - Elems(ks[1..]) == x;
    if after != before {
      KeepOnlyWithout(before, k, x);
    }
  }

  /** A key `get` moves to the front, and that a filter keeps, leads the
      filtered list, followed by the rest filtered without it. */
  lemma LiveRecency(k: Key, before: seq<Key>, after: seq<Key>, x1: set<Key>, x: set<Key>)
    requires after == [k] + Without(before, k)
    requires k in x1 && x == x1 - {k}
    ensures KeepOnly(after, x1) == [k] + KeepOnly(before, x)
  {
    var w := Without(before, k);
    assert after[1..] == w;
    KeepOnlySame(w, x1, x);
    KeepOnlyWithout(before, k, x);
  }

  /** The last step of `CompactRecency` for a live key: it goes to the
      back of the reversed visited keys. */
  lemma RecencyFront(ks: seq<Key>, live: set<Key>, before: seq<Key>, x: set<Key>, rec: seq<Key>)
    requires |ks| > 0 && KeepOnly(ks, live) == [ks[0]] + KeepOnly(ks[1..], live)
    requires rec == Reverse(KeepOnly(ks[1..], live)) + ([ks[0]] + KeepOnly(before, x))
    ensures rec == Reverse(KeepOnly(ks, live)) + KeepOnly(before, x)
  {
    ReverseConsThen(ks[0], KeepOnly(ks[1..], live), KeepOnly(before, x));
  }


  /** The inductive step of `CompactKeys`: `get` of the first key changes
      nothing the later keys' records depend on. */
  lemma CompactStep(ks: seq<Key>, s: Store, now: int, s1: Store, recs: seq<Record>)
    requires Valid(s) && |ks| > 0 && ks[0] !in ks[1..]
    requires s1 == Get(s, ks[0], now).store
    requires |recs| == |ks| - 1
    requires forall i :: 0 <= i < |ks| - 1 ==> recs[i] == Snapshot(s1, ks[1..][i], now)
    ensures forall i :: 0 <= i < |ks| - 1 ==> recs[i] == Snapshot(s, ks[i + 1], now)
    ensures Snapshot(s, ks[0], now)
         == SetRecord(ks[0], ValueText(Get(s, ks[0], now).value), TtlRemaining(s1, ks[0], now))
    ensures s1.entries - (Elems(ks[1..]) * ExpiredKeys(s1, now))
         == s.entries - (Elems(ks) * ExpiredKeys(s, now))
  {
    LaterSnapshots(ks, s, now, s1, recs);
    FirstSnapshot(s, ks[0], now);
    LaterEntries(ks, s, now, s1);
  }

  /** The record of a key, in terms of what `get` answered for it. */
  lemma FirstSnapshot(s: Store, k: Key, now: int)
    requires Valid(s)
    ensures var l := Get(s, k, now);
      Snapshot(s, k, now) == SetRecord(k, ValueText(l.value), TtlRemaining(l.store, k, now))
  {
    var l := Get(s, k, now);
    if k in s.entries && !IsExpired(s.entries[k], now) {
      assert l.value == Some(s.entries[k].value) && l.store.entries == s.entries;
      LiveSnapshot(s, k, now);
      SameTtl(s, l.store, k, now);
    } else {
      assert l.value.None? && k !in l.store.entries;
    }
  }

  lemma LaterSnapshots(ks: seq<Key>, s: Store, now: int, s1: Store, recs: seq<Record>)
    requires Valid(s) && |ks| > 0 && ks[0] !in ks[1..]
    requires s1 == Get(s, ks[0], now).store
    requires |recs| == |ks| - 1
    requires forall i :: 0 <= i < |ks| - 1 ==> recs[i] == Snapshot(s1, ks[1..][i], now)
    ensures forall i :: 0 <= i < |ks| - 1 ==> recs[i] == Snapshot(s, ks[i + 1], now)
  {
    forall i | 0 <= i < |ks| - 1 ensures recs[i] == Snapshot(s, ks[i + 1], now) {
      assert ks[1..][i] == ks[i + 1];
      assert ks[i + 1] != ks[0];
    }
  }

  lemma LaterEntries(ks: seq<Key>, s: Store, now: int, s1: Store)
    requires Valid(s) && |ks| > 0 && ks[0] !in ks[1..]
    requires s1 == Get(s, ks[0], now).store
    ensures s1.entries - (Elems(ks[1..]) * ExpiredKeys(s1, now))
         == s.entries - (Elems(ks) * ExpiredKeys(s, now))
  {
    var k, x := ks[0], ExpiredKeys(s, now);
    assert s1.entries == (if k in x then s.entries - {k} else s.entries);
    ExpiredAfterGet(s, k, now);
    ElemsCons(ks);
    DropVisited(s.entries, s1.entries, x, k, Elems(ks[1..]));
  }

  /** Dropping the first visited key, if expired, then the later expired
      visited keys, drops all the expired visited keys. */
  lemma DropVisited<V>(m: map<Key, V>, m1: map<Key, V>, x: set<Key>, k: Key, rest: set<Key>)
    requires m1 == (if k in x then m - {k} else m)
    requires k !in rest
    ensures m1 - (rest * (x - {k})) == m - (({k} + rest) * x)
  {
  }

  /** `compact(store)`: one `SET` record per key of `keys()`, in that order.
      Its `get` calls leave the live keys in `keys()` order, the recency
      list holding them in the opposite order, one hit per live key, and one
      miss, one TTL expiration and two operations per expired key. */
  function Compact(s: Store, now: int): (c: Compaction)
    requires Valid(s)
    ensures Valid(c.store)
    ensures |c.records| == |Keys(s)|
    ensures forall i :: 0 <= i < |c.records| ==> c.records[i] == Snapshot(s, Keys(s)[i], now)
    ensures c.store.entries == s.entries - ExpiredKeys(s, now)
    ensures c.store.capacity == s.capacity && c.store.startTime == s.startTime
    ensures c.store.order == LiveKeys(s, now)
    ensures c.store.recency == Reverse(LiveKeys(s, now))
    ensures GetCounts(s, c.store, |LiveKeys(s, now)|, |s.entries|, |ExpiredKeys(s, now)|)
  {
    var ks := Keys(s);
    assert Elems(ks) * ExpiredKeys(s, now) == ExpiredKeys(s, now);
    var c := CompactKeys(ks, s, now);
    CompactWholeStore(s, now, c.store);
    c
  }

  /** What `CompactKeys` says about the store when it visits every key. */
  lemma CompactWholeStore(s: Store, now: int, r: Store)
    requires Valid(s)
    requires r.entries == s.entries - ExpiredKeys(s, now)
    requires GetCounts(s, r, |KeepOnly(Keys(s), LiveSet(s, now))|, |Keys(s)|,
                       |KeepOnly(Keys(s), ExpiredKeys(s, now))|)
    requires r.order == KeepOnly(s.order, r.entries.Keys)
    requires r.recency
          == Reverse(KeepOnly(Keys(s), LiveSet(s, now))) + KeepOnly(s.recency, r.entries.Keys - Elems(Keys(s)))
    ensures r.order == LiveKeys(s, now)
    ensures r.recency == Reverse(LiveKeys(s, now))
    ensures GetCounts(s, r, |LiveKeys(s, now)|, |s.entries|, |ExpiredKeys(s, now)|)
  {
    var ks := Keys(s);
    assert r.entries.Keys == LiveSet(s, now);
    var none := KeepOnly(s.recency, r.entries.Keys - Elems(ks));
    assert r.entries.Keys - Elems(ks) == {};
    KeepOnlyNothing(s.recency, r.entries.Keys - Elems(ks));
    var expired := KeepOnly(ks, ExpiredKeys(s, now));
    assert Elems(expired) == ExpiredKeys(s, now);
    DistinctCard(expired);
  }

  /** The compacted log file. */
  function CompactedLog(s: Store, now: int): string
    requires Valid(s)
  {
    Log(Compact(s, now).records)
  }

  /** An expired key is written as the text "None" with no TTL, so replaying
      the compacted log brings it back as a live key that never expires. */
  lemma CompactResurrectsExpired(s: Store, now: int, i: nat, t: Store, later: int)
    requires Valid(s) && Valid(t) && i < |Keys(s)|
    requires IsExpired(s.entries[Keys(s)[i]], now)
    ensures Compact(s, now).records[i] == SetRecord(Keys(s)[i], "None", None)
    ensures var k := Keys(s)[i];
      Apply(t, Compact(s, now).records[i], later).entries[k] == Entry("None", None)
      && !IsExpired(Entry("None", None), later)
  {
  }

  /** The entry a key has after recovering the compacted log at time `t`:
      a live key keeps its value and the same time left; an expired key
      comes back as "None" without expiry. */
  function Restored(e: Entry, now: int, t: int): Entry {
    if IsExpired(e, now) then Entry("None", None)
    else Entry(e.value, if e.expiry.Some? then Some(e.expiry.value - now + t) else None)
  }

  function KeysOf(rs: seq<Record>): (ks: seq<Key>)
    ensures |ks| == |rs| && forall i :: 0 <= i < |rs| ==> ks[i] == rs[i].key
  {
    if |rs| == 0 then [] else [rs[0].key] + KeysOf(rs[1..])
  }

  /** Store `r` holds the entry each of the `SET`s `rs` writes at time `t`. */
  ghost predicate HoldsSets(rs: seq<Record>, t: int, r: Store) {
    forall i :: 0 <= i < |rs| ==>
      rs[i].SetRecord? && rs[i].key in r.entries
      && r.entries[rs[i].key] == Entry(rs[i].value, ExpiryFor(rs[i].ttl, t))
  }

  /** `rs` are `SET`s of distinct keys none of which is in `entries`. */
  ghost predicate FreshSets(rs: seq<Record>, entries: map<Key, Entry>) {
    && (forall i :: 0 <= i < |rs| ==> rs[i].SetRecord? && rs[i].key !in entries)
    && Distinct(KeysOf(rs))
  }

  /** `r` is `st` with the `SET`s `rs` inserted at time `t`, in order. */
  ghost predicate InsertedAll(st: Store, rs: seq<Record>, t: int, r: Store) {
    && (forall k :: k in r.entries <==> k in st.entries || k in KeysOf(rs))
    && (forall k :: k in st.entries ==> r.entries[k] == st.entries[k])
    && (forall i :: 0 <= i < |rs| ==>
          rs[i].SetRecord? && rs[i].key in r.entries
          && r.entries[rs[i].key] == Entry(rs[i].value, ExpiryFor(rs[i].ttl, t)))
    && r.order == st.order + KeysOf(rs)
  }

  /** Replaying `SET`s of distinct new keys into a store with room for them
      all inserts each one without eviction, in order. */
  lemma {:induction false} ReplayFreshSets(rs: seq<Record>, st: Store, t: int)
    requires Valid(st) && FreshSets(rs, st.entries)
    requires |st.entries| + |rs| <= st.capacity
    ensures InsertedAll(st, rs, t, Replay(rs, st, t))
    decreases |rs|
  {
    if |rs| > 0 {
      var st1 := Apply(st, rs[0], t);
      FreshSetStep(rs, st, t);
      ReplayFreshSets(rs[1..], st1, t);
      InsertedStep(rs, st, st1, t, Replay(rs[1..], st1, t));
    }
  }

  /** After the first `SET` the rest are still fresh, and there is still room. */
  lemma FreshSetStep(rs: seq<Record>, st: Store, t: int)
    requires Valid(st) && FreshSets(rs, st.entries) && |rs| > 0
    requires |st.entries| + |rs| <= st.capacity
    ensures var st1 := Apply(st, rs[0], t);
      && rs[0].SetRecord?
      && st1.order == st.order + [rs[0].key]
      && st1.entries == st.entries[rs[0].key := Entry(rs[0].value, ExpiryFor(rs[0].ttl, t))]
      && st1.capacity == st.capacity
      && FreshSets(rs[1..], st1.entries)
      && |st1.entries| + |rs[1..]| <= st1.capacity
  {
    var r0 := rs[0];
    var st1 := Apply(st, r0, t);
    assert st1 == Set(st, r0.key, r0.value, r0.ttl, t);
    assert KeysOf(rs) == [r0.key] + KeysOf(rs[1..]);
    DistinctTail(KeysOf(rs));
    forall i | 0 <= i < |rs| - 1 ensures rs[1..][i].SetRecord? && rs[1..][i].key !in st1.entries {
      assert rs[1..][i] == rs[i + 1];
      assert KeysOf(rs)[i + 1] == rs[i + 1].key;
      assert rs[i + 1].key != r0.key;
    }
    assert KeysOf(rs[1..]) == KeysOf(rs)[1..];
  }

  /** Appending one key, then the rest, appends them all. */
  lemma InsertedOrder(order: seq<Key>, k: Key, rest: seq<Key>, ks: seq<Key>)
    requires ks == [k] + rest
    ensures order + [k] + rest == order + ks
  {
  }

  lemma InsertedStep(rs: seq<Record>, st: Store, st1: Store, t: int, r: Store)
    requires |rs| > 0 && rs[0].SetRecord? && rs[0].key !in st.entries && Distinct(KeysOf(rs))
    requires st1.order == st.order + [rs[0].key]
    requires st1.entries == st.entries[rs[0].key := Entry(rs[0].value, ExpiryFor(rs[0].ttl, t))]
    requires InsertedAll(st1, rs[1..], t, r)
    ensures InsertedAll(st, rs, t, r)
  {
    var r0 := rs[0];
    var ks := KeysOf(rs);
    assert ks == [r0.key] + KeysOf(rs[1..]);
    assert forall k :: k in ks <==> k == r0.key || k in KeysOf(rs[1..]);
    InsertedOrder(st.order, r0.key, KeysOf(rs[1..]), ks);
    assert forall k :: k in st.entries ==> r.entries[k] == st.entries[k] by {
      forall k | k in st.entries ensures r.entries[k] == st.entries[k] {
        assert k != r0.key;
        assert st1.entries[k] == st.entries[k];
      }
    }
    forall i | 0 <= i < |rs|
      ensures rs[i].SetRecord? && rs[i].key in r.entries
           && r.entries[rs[i].key] == Entry(rs[i].value, ExpiryFor(rs[i].ttl, t))
    {
      if i > 0 {
        assert rs[1..][i - 1] == rs[i];
      }
    }
  }


  lemma KeysOfPointwise(rs: seq<Record>, ks: seq<Key>)
    requires |rs| == |ks| && forall i :: 0 <= i < |rs| ==> rs[i].key == ks[i]
    ensures KeysOf(rs) == ks
  {
  }

  /** `rs` are the compaction records of store `s` at `now` for the keys `ks`,
      one per key, in that order. */
  ghost predicate SnapshotsOf(rs: seq<Record>, ks: seq<Key>, s: Store, now: int) {
    |rs| == |ks| && forall i :: 0 <= i < |rs| ==> rs[i] == Snapshot(s, ks[i], now)
  }

  /** Every key of `s`, and every value, can be carried by a log line. */
  ghost predicate AllFields(s: Store) {
    forall k :: k in s.entries ==> IsField(k) && IsField(s.entries[k].value)
  }

  /** Compaction records of distinct keys of the store are well-formed `SET`s
      of those keys, when every key and value is a field. */
  lemma CompactRecords(s: Store, now: int, ks: seq<Key>, rs: seq<Record>)
    requires Distinct(ks) && (forall k :: k in ks ==> k in s.entries)
    requires SnapshotsOf(rs, ks, s, now) && AllFields(s)
    ensures KeysOf(rs) == ks
    ensures FreshSets(rs, map[])
    ensures forall i :: 0 <= i < |rs| ==> WellFormed(rs[i])
  {
    KeysOfPointwise(rs, ks);
    SnapshotsWellFormed(s, now, ks, rs);
  }

  lemma SnapshotsWellFormed(s: Store, now: int, ks: seq<Key>, rs: seq<Record>)
    requires (forall k :: k in ks ==> k in s.entries) && SnapshotsOf(rs, ks, s, now) && AllFields(s)
    ensures forall i :: 0 <= i < |rs| ==> WellFormed(rs[i]) && rs[i].SetRecord?
  {
    NoneIsField();
    forall i | 0 <= i < |rs| ensures WellFormed(rs[i]) && rs[i].SetRecord? {
      SnapshotWellFormed(s, ks[i], now);
    }
  }

  lemma SnapshotWellFormed(s: Store, k: Key, now: int)
    requires IsField(k) && IsField("None")
    requires k in s.entries ==> IsField(s.entries[k].value)
    ensures Snapshot(s, k, now).SetRecord? && WellFormed(Snapshot(s, k, now))
  {
  }

  lemma NoneIsField()
    ensures IsField("None")
  {
    assert forall i :: 0 <= i < 4 ==> "None"[i] != '|' && !IsLineBreak("None"[i]);
  }

  /** Setting a key from its compaction record at time `t` gives the entry
      `Restored` describes. */
  lemma SnapshotRestores(s: Store, k: Key, now: int, t: int)
    requires k in s.entries
    ensures var r := Snapshot(s, k, now);
      Entry(r.value, ExpiryFor(r.ttl, t)) == Restored(s.entries[k], now, t)
  {
  }

  /** The entries a replay of the compaction records inserts are those
      `Restored` describes. */
  lemma RestoredEntries(s: Store, now: int, t: int, ks: seq<Key>, rs: seq<Record>, r: Store)
    requires (forall k :: k in ks ==> k in s.entries) && SnapshotsOf(rs, ks, s, now)
    requires HoldsSets(rs, t, r)
    ensures forall k :: k in ks ==> k in r.entries && r.entries[k] == Restored(s.entries[k], now, t)
  {
    forall k | k in ks ensures k in r.entries && r.entries[k] == Restored(s.entries[k], now, t) {
      var i :| 0 <= i < |ks| && ks[i] == k;
      var rec := rs[i];
      assert rec == Snapshot(s, k, now);
      assert rec.key == k;
      assert rec.SetRecord? && k in r.entries && r.entries[k] == Entry(rec.value, ExpiryFor(rec.ttl, t));
      SnapshotRestores(s, k, now, t);
    }
  }

  /** Recovering the compacted log into a fresh store with room for every key
      rebuilds the same keys in the same `keys()` order; each key holds the
      entry `Restored` describes. Keys and values must be fields a line can
      carry. */
  lemma CompactThenRecover(s: Store, now: int, capacity: int, t: int)
    requires Valid(s) && |s.entries| <= capacity && AllFields(s)
    ensures var r := Recover(CompactedLog(s, now), Empty(capacity, t), t);
      && r.Recovered?
      && r.store.order == Keys(s)
      && r.store.entries.Keys == s.entries.Keys
      && forall k :: k in s.entries ==> r.store.entries[k] == Restored(s.entries[k], now, t)
  {
    var rs := Compact(s, now).records;
    assert SnapshotsOf(rs, Keys(s), s, now);
    RecoverSnapshots(s, now, capacity, t, Keys(s), rs);
    var r := Recover(CompactedLog(s, now), Empty(capacity, t), t);
    SameKeys(r.store.entries, Keys(s), s.entries);
  }

  /** With no key expired at compaction, recovering the compacted log gives
      back the same keys with the same values. */
  lemma CompactKeepsValues(s: Store, now: int, capacity: int, t: int)
    requires Valid(s) && |s.entries| <= capacity && AllFields(s)
    requires forall k :: k in s.entries ==> !IsExpired(s.entries[k], now)
    ensures var r := Recover(CompactedLog(s, now), Empty(capacity, t), t);
      && r.Recovered?
      && r.store.entries.Keys == s.entries.Keys
      && forall k :: k in s.entries ==> r.store.entries[k].value == s.entries[k].value
  {
    CompactThenRecover(s, now, capacity, t);
  }

  lemma SameKeys(a: map<Key, Entry>, ks: seq<Key>, b: map<Key, Entry>)
    requires forall k :: k in a <==> k in ks
    requires forall k :: k in ks <==> k in b
    ensures a.Keys == b.Keys
  {
  }

  /** Recovering a log of compaction records of distinct keys into a fresh
      store with room for them inserts exactly those keys, in order, each
      with the entry `Restored` describes. */
  lemma RecoverSnapshots(s: Store, now: int, capacity: int, t: int, ks: seq<Key>, rs: seq<Record>)
    requires Distinct(ks) && (forall k :: k in ks ==> k in s.entries) && |ks| <= capacity
    requires SnapshotsOf(rs, ks, s, now) && AllFields(s)
    ensures var r := Recover(Log(rs), Empty(capacity, t), t);
      && r.Recovered?
      && r.store.order == ks
      && (forall k :: k in r.store.entries <==> k in ks)
      && forall k :: k in ks ==> r.store.entries[k] == Restored(s.entries[k], now, t)
  {
    CompactRecords(s, now, ks, rs);
    LogRoundTrip(rs, Empty(capacity, t), t);
    ReplayCompacted(s, now, capacity, t, ks, rs);
  }

  /** Replaying the compaction records into a fresh store with room for them. */
  lemma ReplayCompacted(s: Store, now: int, capacity: int, t: int, ks: seq<Key>, rs: seq<Record>)
    requires Distinct(ks) && (forall k :: k in ks ==> k in s.entries) && |ks| <= capacity
    requires SnapshotsOf(rs, ks, s, now) && AllFields(s)
    ensures var r := Replay(rs, Empty(capacity, t), t);
      && r.order == ks
      && (forall k :: k in r.entries <==> k in ks)
      && forall k :: k in ks ==> r.entries[k] == Restored(s.entries[k], now, t)
  {
    var e := Empty(capacity, t);
    var r := Replay(rs, e, t);
    CompactRecords(s, now, ks, rs);
    ReplayIntoEmpty(rs, capacity, t);
    RestoredEntries(s, now, t, ks, rs, r);
  }

  /** Replaying fresh `SET`s into an empty store with room for them inserts
      exactly their keys, in order. */
  lemma ReplayIntoEmpty(rs: seq<Record>, capacity: int, t: int)
    requires FreshSets(rs, map[]) && |rs| <= capacity
    ensures var r := Replay(rs, Empty(capacity, t), t);
      && r.order == KeysOf(rs)
      && (forall k :: k in r.entries <==> k in KeysOf(rs))
      && HoldsSets(rs, t, r)
  {
    var e := Empty(capacity, t);
    ReplayFreshSets(rs, e, t);
    assert e.order + KeysOf(rs) == KeysOf(rs);
  }

  // ------------------------------------------------------------------
  // Compaction of the live keys only

  /** The live keys, in `keys()` order. */
  function LiveKeys(s: Store, now: int): (ks: seq<Key>)
    requires Valid(s)
    ensures Distinct(ks) && |ks| <= |s.entries|
    ensures forall k :: k in ks <==> k in s.entries && !IsExpired(s.entries[k], now)
  {
    KeepOnly(Keys(s), LiveSet(s, now))
  }

  /** The loop of `compact` skipping every key whose `get` returns None. */
  function CompactLiveKeys(ks: seq<Key>, s: Store, now: int): (c: Compaction)
    requires Valid(s) && Distinct(ks)
    ensures Valid(c.store)
    ensures SnapshotsOf(c.records, KeepOnly(ks, LiveSet(s, now)), s, now)
    ensures c.store.entries == s.entries - (Elems(ks) * ExpiredKeys(s, now))
    ensures c.store.capacity == s.capacity
    decreases |ks|
  {
    if |ks| == 0 then Compaction([], s)
    else
      var k := ks[0];
      var l := Get(s, k, now);
      DistinctTail(ks);
      var rest := CompactLiveKeys(ks[1..], l.store, now);
      LiveStep(ks, s, now, l.store, rest.records);
      if l.value.None? then
        SkipSnapshot(ks, LiveSet(s, now), s, now, rest.records);
        rest
      else
        var r := SetRecord(k, l.value.value, TtlRemaining(l.store, k, now));
        ConsSnapshot(ks, LiveSet(s, now), s, now, rest.records, r);
        Compaction([r] + rest.records, rest.store)
  }

  /** A key that is not live adds no record. */
  lemma SkipSnapshot(ks: seq<Key>, live: set<Key>, s: Store, now: int, recs: seq<Record>)
    requires |ks| > 0 && ks[0] !in live
    requires SnapshotsOf(recs, KeepOnly(ks[1..], live), s, now)
    ensures SnapshotsOf(recs, KeepOnly(ks, live), s, now)
  {
    KeepOnlyHead(ks, live);
  }

  /** A live key adds its snapshot ahead of the later keys' records. */
  lemma ConsSnapshot(ks: seq<Key>, live: set<Key>, s: Store, now: int, recs: seq<Record>, r: Record)
    requires |ks| > 0 && ks[0] in live && r == Snapshot(s, ks[0], now)
    requires SnapshotsOf(recs, KeepOnly(ks[1..], live), s, now)
    ensures SnapshotsOf([r] + recs, KeepOnly(ks, live), s, now)
  {
    KeepOnlyHead(ks, live);
  }

  /** `CompactKeys` leaves the store its rest leaves after `get` of the first key. */
  lemma CompactKeysUnfold(ks: seq<Key>, s: Store, now: int)
    requires Valid(s) && Distinct(ks) && |ks| > 0
    ensures Distinct(ks[1..])
    ensures CompactKeys(ks, s, now).store == CompactKeys(ks[1..], Get(s, ks[0], now).store, now).store
  {
    DistinctTail(ks);
  }

  /** Skipping the keys `get` misses leaves the store as the loop that
      writes them does: the same counters, key order and recency. */
  lemma {:induction false} CompactLiveKeysStore(ks: seq<Key>, s: Store, now: int)
    requires Valid(s) && Distinct(ks)
    ensures CompactLiveKeys(ks, s, now).store == CompactKeys(ks, s, now).store
    decreases |ks|
  {
    if |ks| > 0 {
      CompactKeysUnfold(ks, s, now);
      CompactLiveKeysStore(ks[1..], Get(s, ks[0], now).store, now);
    }
  }

  /** The inductive step of `CompactLiveKeys`: `get` of the first key leaves
      the live set and the other keys' records as they were. */
  lemma LiveStep(ks: seq<Key>, s: Store, now: int, s1: Store, recs: seq<Record>)
    requires Valid(s) && |ks| > 0 && ks[0] !in ks[1..]
    requires s1 == Get(s, ks[0], now).store
    requires SnapshotsOf(recs, KeepOnly(ks[1..], LiveSet(s1, now)), s1, now)
    ensures var l := Get(s, ks[0], now);
      && (l.value.None? <==> ks[0] !in LiveSet(s, now))
      && (l.value.Some? ==>
            Snapshot(s, ks[0], now) == SetRecord(ks[0], l.value.value, TtlRemaining(s1, ks[0], now)))
      && SnapshotsOf(recs, KeepOnly(ks[1..], LiveSet(s, now)), s, now)
    ensures s1.entries - (Elems(ks[1..]) * ExpiredKeys(s1, now))
         == s.entries - (Elems(ks) * ExpiredKeys(s, now))
  {
    LiveAnswer(s, ks[0], now);
    LiveKept(s, ks[0], now);
    LaterLiveSnapshots(ks, s, now, s1, recs);
    LaterEntries(ks, s, now, s1);
  }

  /** `get` answers None exactly for a key that is not live, and otherwise
      the value compaction records for it. */
  lemma LiveAnswer(s: Store, k: Key, now: int)
    requires Valid(s)
    ensures var l := Get(s, k, now);
      && (l.value.None? <==> k !in LiveSet(s, now))
      && (l.value.Some? ==> Snapshot(s, k, now) == SetRecord(k, l.value.value, TtlRemaining(l.store, k, now)))
  {
    var l := Get(s, k, now);
    if k in s.entries && !IsExpired(s.entries[k], now) {
      assert l.value == Some(s.entries[k].value) && l.store.entries == s.entries;
      LiveSnapshot(s, k, now);
      SameTtl(s, l.store, k, now);
    }
  }

  /** A live key's record carries its value and its remaining time. */
  lemma LiveSnapshot(s: Store, k: Key, now: int)
    requires k in s.entries && !IsExpired(s.entries[k], now)
    ensures Snapshot(s, k, now) == SetRecord(k, s.entries[k].value, TtlRemaining(s, k, now))
  {
  }

  lemma SameTtl(s: Store, t: Store, k: Key, now: int)
    requires s.entries == t.entries
    ensures TtlRemaining(s, k, now) == TtlRemaining(t, k, now)
  {
  }

  /** `get` changes neither the live set nor any other key's record. */
  lemma LiveKept(s: Store, k: Key, now: int)
    requires Valid(s)
    ensures var s1 := Get(s, k, now).store;
      && LiveSet(s1, now) == LiveSet(s, now)
      && forall y :: y != k ==> Snapshot(s1, y, now) == Snapshot(s, y, now)
  {
    var s1 := Get(s, k, now).store;
    if k in s.entries && IsExpired(s.entries[k], now) {
      assert s1.entries == s.entries - {k};
      DropExpiredKeeps(s, s1, k, now);
    } else {
      assert s1.entries == s.entries;
      SameEntriesKeep(s, s1, now);
    }
  }

  lemma SameEntriesKeep(s: Store, t: Store, now: int)
    requires t.entries == s.entries
    ensures LiveSet(t, now) == LiveSet(s, now)
    ensures forall y :: Snapshot(t, y, now) == Snapshot(s, y, now)
  {
  }

  /** Deleting an expired key changes neither the live set nor any other
      key's record. */
  lemma DropExpiredKeeps(s: Store, t: Store, k: Key, now: int)
    requires k in s.entries && IsExpired(s.entries[k], now)
    requires t.entries == s.entries - {k}
    ensures LiveSet(t, now) == LiveSet(s, now)
    ensures forall y :: y != k ==> Snapshot(t, y, now) == Snapshot(s, y, now)
  {
    forall y ensures y in LiveSet(t, now) <==> y in LiveSet(s, now) {
    }
  }

  lemma LaterLiveSnapshots(ks: seq<Key>, s: Store, now: int, s1: Store, recs: seq<Record>)
    requires |ks| > 0 && ks[0] !in ks[1..]
    requires LiveSet(s1, now) == LiveSet(s, now)
    requires forall y :: y != ks[0] ==> Snapshot(s1, y, now) == Snapshot(s, y, now)
    requires SnapshotsOf(recs, KeepOnly(ks[1..], LiveSet(s1, now)), s1, now)
    ensures SnapshotsOf(recs, KeepOnly(ks[1..], LiveSet(s, now)), s, now)
  {
    var live := KeepOnly(ks[1..], LiveSet(s, now));
    forall i | 0 <= i < |recs| ensures recs[i] == Snapshot(s, live[i], now) {
      assert live[i] in live;
      assert live[i] != ks[0];
    }
  }

  /** `compact` as its description intends it: a `SET` for each live key of
      `keys()`, in that order, and nothing for an expired one. */
  function CompactLive(s: Store, now: int): (c: Compaction)
    requires Valid(s)
    ensures Valid(c.store)
    ensures SnapshotsOf(c.records, LiveKeys(s, now), s, now)
    ensures c.store.entries == s.entries - ExpiredKeys(s, now)
    ensures c.store.capacity == s.capacity
  {
    assert Elems(Keys(s)) * ExpiredKeys(s, now) == ExpiredKeys(s, now);
    CompactLiveKeys(Keys(s), s, now)
  }

  /** Writing only the live keys leaves the store exactly as `compact`
      does: its `get` calls are the same. */
  lemma CompactLiveStore(s: Store, now: int)
    requires Valid(s)
    ensures CompactLive(s, now).store == Compact(s, now).store
  {
    CompactLiveKeysStore(Keys(s), s, now);
  }

  /** Recovering the log `CompactLive` writes into a fresh store with room
      for every key gives back exactly the live keys, in `keys()` order, each
      with its value and the same time left (counted from `t`). */
  lemma CompactLiveThenRecover(s: Store, now: int, capacity: int, t: int)
    requires Valid(s) && |s.entries| <= capacity && AllFields(s)
    ensures var r := Recover(Log(CompactLive(s, now).records), Empty(capacity, t), t);
      && r.Recovered?
      && r.store.order == LiveKeys(s, now)
      && r.store.entries.Keys == s.entries.Keys - ExpiredKeys(s, now)
      && forall k :: k in r.store.entries ==>
           && k in s.entries && !IsExpired(s.entries[k], now)
           && r.store.entries[k].value == s.entries[k].value
           && r.store.entries[k].expiry
              == (if s.entries[k].expiry.Some? then Some(s.entries[k].expiry.value - now + t) else None)
  {
    var ks := LiveKeys(s, now);
    RecoverSnapshots(s, now, capacity, t, ks, CompactLive(s, now).records);
  }

  /** The store of the example below: "k" set to "v" at time 0 with TTL 1. */
  function ShortLived(): (s: Store)
    ensures Valid(s) && AllFields(s) && |s.entries| <= 10
    ensures s.entries == map["k" := Entry("v", Some(1))]
  {
    var s := Set(Empty(10, 0), "k", "v", Some(1), 0);
    assert IsField("k") && IsField("v");
    s
  }

  /** "k" has expired by time 5, yet recovering at time 10 the log `compact`
      writes at time 5 brings it back as the value "None" that never expires. */
  lemma ExpiredKeyResurrected()
    ensures var r := Recover(CompactedLog(ShortLived(), 5), Empty(10, 10), 10);
      && IsExpired(ShortLived().entries["k"], 5)
      && r.Recovered? && "k" in r.store.entries && r.store.entries["k"] == Entry("None", None)
  {
    CompactThenRecover(ShortLived(), 5, 10, 10);
  }

  /** The log of live keys only leaves "k" out of the recovered store. */
  lemma ExpiredKeyStaysGone()
    ensures var r := Recover(Log(CompactLive(ShortLived(), 5).records), Empty(10, 10), 10);
      r.Recovered? && "k" !in r.store.entries
  {
    CompactLiveThenRecover(ShortLived(), 5, 10, 10);
  }
}
