/** Parsing `git status --porcelain=v2 -z` (git.rs), whole or cut off anywhere. */
module GitStatus {
  import opened Bytes

  type Text = seq<Byte>

  const MAX_ENTRIES: nat := 5_000
  const SPACE: Byte := ' ' as int
  const SLASH: Byte := '/' as int
  const DOT: Byte := '.' as int

  datatype Change = Change(path: Text, original: Option<Text>, index: Byte, worktree: Byte, untracked: bool, conflicted: bool)

  datatype Problem = Incomplete | NotUtf8 | BadFile | Unsupported | Malformed | NoSource | NoHead

  datatype Parsed = Failed(why: Problem) | Status(unborn: bool, entries: seq<Change>, truncated: bool)

  // ----- the shape of a record -----

  predicate Continues(b: Byte) { 0x80 <= b <= 0xbf }

  /** Well-formed UTF-8, RFC 3629 section 4. */
  predicate Utf8(s: Text) {
    if s == [] then true
    else if s[0] < 0x80 then Utf8(s[1..])
    else if 0xc2 <= s[0] <= 0xdf then |s| >= 2 && Continues(s[1]) && Utf8(s[2..])
    else if 0xe0 <= s[0] <= 0xef then
      |s| >= 3 && Continues(s[1]) && Continues(s[2]) && (s[0] == 0xe0 ==> s[1] >= 0xa0) && (s[0] == 0xed ==> s[1] <= 0x9f)
      && Utf8(s[3..])
    else if 0xf0 <= s[0] <= 0xf4 then
      |s| >= 4 && Continues(s[1]) && Continues(s[2]) && Continues(s[3])
      && (s[0] == 0xf0 ==> s[1] >= 0x90) && (s[0] == 0xf4 ==> s[1] <= 0x8f) && Utf8(s[4..])
    else false
  }

  predicate Component(s: Text) { s != [] && s != [DOT] && s != [DOT, DOT] }

  predicate Components(names: seq<Text>) { forall i :: 0 <= i < |names| ==> Component(names[i]) }

  /** `validate_file`: a repository-relative path, one trailing slash allowed. */
  predicate ValidFile(path: Text) {
    var p: Text := if path != [] && path[|path| - 1] == SLASH then path[..|path| - 1] else path;
    && p != [] && p[0] != SLASH && 0 !in p
    && Components(Split(p, SLASH))
  }

  /** `s.splitn(n, sep)`. */
  function SplitN(n: nat, s: Text, sep: Byte): seq<Text>
    requires n >= 1
  {
    if n == 1 then [s]
    else match SplitOnce(s, sep)
      case None => [s]
      case Some((head, tail)) => [head] + SplitN(n - 1, tail, sep)
  }

  datatype Record = Bad(why: Problem) | Untracked(path: Text)
    | Tracked(path: Text, index: Byte, worktree: Byte, renamed: bool, conflicted: bool)

  function Fields(first: Byte): nat {
    if first == '1' as int then 9 else if first == '2' as int then 10 else if first == 'u' as int then 11 else 0
  }

  const QUESTION: Text := [63, SPACE]
  const COMMENT: Text := [35, SPACE]
  const OID: Text := COMMENT + Ascii("branch.oid ")
  const INITIAL_OID: Text := Ascii("(initial)")

  /** What one record that is no comment says. */
  function Classify(record: Text): Record
    requires record != []
  {
    if QUESTION <= record then
      (if ValidFile(record[2..]) then Untracked(record[2..]) else Bad(BadFile))
    else if Fields(record[0]) == 0 then Bad(Unsupported)
    else
      var count := Fields(record[0]);
      var fields := SplitN(count, record, SPACE);
      if |fields| != count || |fields[1]| != 2 || fields[1][0] >= 128 || fields[1][1] >= 128 then Bad(Malformed)
      else if !ValidFile(fields[count - 1]) then Bad(BadFile)
      else Tracked(fields[count - 1], fields[1][0], fields[1][1], count == 10, count == 11)
  }

  // ----- the parse -----

  datatype Progress = Progress(unborn: Option<bool>, entries: seq<Change>, truncated: bool)

  function Finish(p: Progress): Parsed {
    if p.unborn.None? then Failed(NoHead) else Status(p.unborn.value, p.entries, p.truncated)
  }

  function Push(p: Progress, c: Change): Progress { p.(entries := p.entries + [c]) }

  predicate Complete(records: seq<Text>) { forall i :: 0 <= i < |records| ==> records[i] != [] }

  function Go(records: seq<Text>, p: Progress): Parsed
    requires Complete(records)
    decreases |records|
  {
    if records == [] then Finish(p)
    else
      var record := records[0];
      if !Utf8(record) then Failed(NotUtf8)
      else if OID <= record then Go(records[1..], p.(unborn := Some(record[|OID|..] == INITIAL_OID)))
      else if COMMENT <= record then Go(records[1..], p)
      else if |p.entries| == MAX_ENTRIES then Finish(p.(truncated := true))
      else match Classify(record)
        case Bad(why) => Failed(why)
        case Untracked(path) =>
          Go(records[1..], Push(p, Change(path, None, '?' as int, '?' as int, true, false)))
        case Tracked(path, index, worktree, false, conflicted) =>
          Go(records[1..], Push(p, Change(path, None, index, worktree, false, conflicted)))
        case Tracked(path, index, worktree, true, conflicted) =>
          if |records| == 1 then (if p.truncated then Finish(p) else Failed(NoSource))
          else if !Utf8(records[1]) then Failed(NotUtf8)
          else if !ValidFile(records[1]) then Failed(BadFile)
          else Go(records[2..], Push(p, Change(path, Some(records[1]), index, worktree, false, conflicted)))
  }

  function NonEmpty(pieces: seq<Text>): (records: seq<Text>)
    ensures Complete(records)
  {
    if pieces == [] then [] else (if pieces[0] == [] then [] else [pieces[0]]) + NonEmpty(pieces[1..])
  }

  function Records(bytes: Text): (records: seq<Text>)
    ensures Complete(records)
  {
    NonEmpty(Split(bytes, 0))
  }

  /** One past the last NUL. */
  function AfterLastNul(bytes: Text): (end: nat)
    ensures end <= |bytes|
    ensures end > 0 ==> bytes[end - 1] == 0
    ensures forall i :: end <= i < |bytes| ==> bytes[i] != 0
  {
    if bytes == [] then 0 else if bytes[|bytes| - 1] == 0 then |bytes| else AfterLastNul(bytes[..|bytes| - 1])
  }

  function Parse(bytes: Text, truncated: bool): Parsed {
    if truncated then Go(Records(bytes[..AfterLastNul(bytes)]), Progress(None, [], true))
    else if bytes != [] && bytes[|bytes| - 1] != 0 then Failed(Incomplete)
    else Go(Records(bytes), Progress(None, [], false))
  }

  method ParseRecords(records: seq<Text>, wasTruncated: bool) returns (r: Parsed)
    requires Complete(records)
    ensures r == Go(records, Progress(None, [], wasTruncated))
  {
    hide Classify, Utf8, ValidFile;
    var truncated := wasTruncated;
    var entries: seq<Change> := [];
    var unborn: Option<bool> := None;
    var i := 0;
    ghost var left := records;
    assert records[0..] == records;
    while i < |records|
      invariant 0 <= i <= |records| && left == records[i..] && Complete(left)
      invariant truncated == wasTruncated
      invariant Go(left, Progress(unborn, entries, truncated)) == Go(records, Progress(None, [], wasTruncated))
    {
      var record := records[i];
      assert left[0] == record;
      ghost var was := left;
      i := i + 1;
      left := records[i..];
      assert was[1..] == left;
      if !Utf8(record) {
        return Failed(NotUtf8);
      }
      if OID <= record {
        unborn := Some(record[|OID|..] == INITIAL_OID);
        continue;
      }
      if COMMENT <= record {
        continue;
      }
      if |entries| == MAX_ENTRIES {
        truncated := true;
        break;
      }
      var what := Classify(record);
      if what.Bad? {
        return Failed(what.why);
      }
      if what.Untracked? {
        entries := entries + [Change(what.path, None, '?' as int, '?' as int, true, false)];
        continue;
      }
      var original: Option<Text> := None;
      if what.renamed {
        if i == |records| {
          if truncated {
            break;
          }
          return Failed(NoSource);
        }
        var source := records[i];
        assert was[1] == source;
        i := i + 1;
        left := records[i..];
        assert was[2..] == left;
        if !Utf8(source) {
          return Failed(NotUtf8);
        }
        if !ValidFile(source) {
          return Failed(BadFile);
        }
        original := Some(source);
      }
      entries := entries + [Change(what.path, original, what.index, what.worktree, false, what.conflicted)];
    }
    r := if unborn.None? then Failed(NoHead) else Status(unborn.value, entries, truncated);
  }

  method ParseStatus(bytes: Text, truncated: bool) returns (r: Parsed)
    ensures r == Parse(bytes, truncated)
  {
    hide Go, Records;
    var end := |bytes|;
    if truncated {
      while end > 0 && bytes[end - 1] != 0
        invariant 0 <= end <= |bytes| && forall i :: end <= i < |bytes| ==> bytes[i] != 0
      {
        end := end - 1;
      }
    } else if bytes != [] && bytes[|bytes| - 1] != 0 {
      return Failed(Incomplete);
    }
    assert bytes[..|bytes|] == bytes;
    r := ParseRecords(Records(bytes[..end]), truncated);
  }

  // ----- a cut anywhere -----

  /** Whatever is still to come, the entries collected so far stay as they are. */
  lemma {:induction false} OnlyGrows(records: seq<Text>, p: Progress)
    requires Complete(records) && Go(records, p).Status?
    ensures p.entries <= Go(records, p).entries
    decreases |records|
  {
    hide Classify, Utf8, ValidFile;
    if records != [] && Go(records, p) != Finish(p) && Go(records, p) != Finish(p.(truncated := true)) {
      var record := records[0];
      if OID <= record {
        OnlyGrows(records[1..], p.(unborn := Some(record[|OID|..] == INITIAL_OID)));
      } else if COMMENT <= record {
        OnlyGrows(records[1..], p);
      } else {
        var what := Classify(record);
        if what.Untracked? {
          OnlyGrows(records[1..], Push(p, Change(what.path, None, '?' as int, '?' as int, true, false)));
        } else if !what.renamed {
          OnlyGrows(records[1..], Push(p, Change(what.path, None, what.index, what.worktree, false, what.conflicted)));
        } else {
          OnlyGrows(records[2..], Push(p, Change(what.path, Some(records[1]), what.index, what.worktree, false, what.conflicted)));
        }
      }
    }
  }

  /** The outcome of a cut: no HEAD yet, or some of the entries of the whole, from the front. */
  predicate CutOf(cut: Parsed, whole: Parsed)
    requires whole.Status?
  {
    cut == Failed(NoHead) || (cut.Status? && cut.truncated && cut.entries <= whole.entries)
  }

  lemma {:induction false} CutPush(kept: seq<Text>, lost: seq<Text>, p: Progress, c: Change)
    requires Complete(kept) && Complete(lost) && Complete(kept + lost)
    requires Go(kept + lost, Push(p, c)).Status?
    ensures CutOf(Go(kept, Push(p.(truncated := true), c)), Go(kept + lost, Push(p, c)))
    decreases |kept|, 1
  {
    hide Go;
    assert Push(p, c).(truncated := true) == Push(p.(truncated := true), c);
    CutRecords(kept, lost, Push(p, c));
  }

  lemma {:induction false} CutRecords(kept: seq<Text>, lost: seq<Text>, p: Progress)
    requires Complete(kept) && Complete(lost) && Complete(kept + lost)
    requires Go(kept + lost, p).Status?
    ensures CutOf(Go(kept, p.(truncated := true)), Go(kept + lost, p))
    decreases |kept|, 0
  {
    hide Classify, Utf8, ValidFile;
    var all := kept + lost;
    if kept == [] {
      assert all == lost;
      OnlyGrows(lost, p);
    } else {
      var record := kept[0];
      var q := p.(truncated := true);
      assert all[0] == record && all[1..] == kept[1..] + lost;
      if OID <= record {
        var unborn := Some(record[|OID|..] == INITIAL_OID);
        assert q.(unborn := unborn) == p.(unborn := unborn).(truncated := true);
        CutRecords(kept[1..], lost, p.(unborn := unborn));
      } else if COMMENT <= record {
        CutRecords(kept[1..], lost, p);
      } else if |p.entries| < MAX_ENTRIES || |p.entries| > MAX_ENTRIES {
        var what := Classify(record);
        if what.Untracked? {
          CutPush(kept[1..], lost, p, Change(what.path, None, '?' as int, '?' as int, true, false));
        } else if what.Tracked? && !what.renamed {
          CutPush(kept[1..], lost, p, Change(what.path, None, what.index, what.worktree, false, what.conflicted));
        } else if |kept| == 1 {
          OnlyGrows(all, p);
        } else {
          assert all[1] == kept[1] && all[2..] == kept[2..] + lost;
          CutPush(kept[2..], lost, p, Change(what.path, Some(kept[1]), what.index, what.worktree, false, what.conflicted));
        }
      }
    }
  }

  lemma {:induction false} NonEmptyAppend(a: seq<Text>, b: seq<Text>)
    ensures NonEmpty(a + b) == NonEmpty(a) + NonEmpty(b)
  {
    if a == [] {
      assert a + b == b;
    } else {
      NonEmptyAppend(a[1..], b);
      assert (a + b)[0] == a[0] && (a + b)[1..] == a[1..] + b;
      Assoc(if a[0] == [] then [] else [a[0]], NonEmpty(a[1..]), NonEmpty(b));
    }
  }

  lemma SplitCons(first: Byte, rest: Text)
    ensures Split([first] + rest, 0) ==
              if first == 0 then [[]] + Split(rest, 0) else [[first] + Split(rest, 0)[0]] + Split(rest, 0)[1..]
  {
    assert ([first] + rest)[1..] == rest;
  }

  lemma SplitNothing()
    ensures Split([], 0 as Byte) == [[]]
  {
  }

  /** At a NUL the records before and after do not mix. */
  lemma {:induction false} SplitAtNul(a: Text, b: Text)
    ensures Split(a + [0] + b, 0) == Split(a, 0) + Split(b, 0)
  {
    hide Split;
    if a == [] {
      assert a + [0] + b == [0] + b;
      SplitCons(0, b);
      SplitNothing();
    } else {
      SplitAtNul(a[1..], b);
      assert a == [a[0]] + a[1..] && a + [0] + b == [a[0]] + (a[1..] + [0] + b);
      SplitCons(a[0], a[1..]);
      SplitCons(a[0], a[1..] + [0] + b);
      var before, after := Split(a[1..], 0), Split(b, 0);
      assert (before + after)[0] == before[0] && (before + after)[1..] == before[1..] + after;
      if a[0] == 0 {
        Assoc([[]], before, after);
      } else {
        Assoc([[a[0]] + before[0]], before[1..], after);
      }
    }
  }

  lemma RecordsAtNul(a: Text, b: Text)
    requires a == [] || a[|a| - 1] == 0
    ensures Records(a + b) == Records(a) + Records(b)
  {
    if a == [] {
      assert a + b == b;
    } else {
      var front := a[..|a| - 1];
      assert a == front + [0] + [] && a + b == front + [0] + b;
      SplitAtNul(front, b);
      SplitAtNul(front, []);
      NonEmptyAppend(Split(front, 0), Split(b, 0));
      NonEmptyAppend(Split(front, 0), Split([], 0));
      assert NonEmpty([[]]) == [];
    }
  }

  /** If the whole output parses, its first k bytes, read as cut off, give a front part of the
      same entries, or fail only for want of a HEAD line: no partial file name, and no rename
      without its source. That holds for every k, and for a second cut of a cut as well. */
  lemma TruncatedIsPrefix(bytes: Text, k: nat, truncated: bool)
    requires k <= |bytes| && Parse(bytes, truncated).Status?
    ensures CutOf(Parse(bytes[..k], true), Parse(bytes, truncated))
  {
    hide Go, Records;
    var end := if truncated then AfterLastNul(bytes) else |bytes|;
    var cut := AfterLastNul(bytes[..k]);
    var whole, kept := bytes[..end], bytes[..k][..cut];
    assert !truncated ==> whole == bytes;
    if cut > 0 {
      assert bytes[cut - 1] == 0;
    }
    assert cut <= end;
    var lost := whole[cut..];
    assert kept == whole[..cut] && whole == kept + lost;
    RecordsAtNul(kept, lost);
    CutRecords(Records(kept), Records(lost), Progress(None, [], truncated));
  }

  lemma {:induction false} FlagPush(records: seq<Text>, p: Progress, c: Change)
    requires Complete(records) && Go(records, Push(p, c)).Status?
    ensures Go(records, Push(p.(truncated := true), c)) == Go(records, Push(p, c)).(truncated := true)
    decreases |records|, 1
  {
    hide Go;
    assert Push(p, c).(truncated := true) == Push(p.(truncated := true), c);
    FlagOnly(records, Push(p, c));
  }

  lemma {:induction false} FlagOnly(records: seq<Text>, p: Progress)
    requires Complete(records) && Go(records, p).Status?
    ensures Go(records, p.(truncated := true)) == Go(records, p).(truncated := true)
    decreases |records|, 0
  {
    hide Classify, Utf8, ValidFile;
    if records != [] {
      var record := records[0];
      if OID <= record {
        var unborn := Some(record[|OID|..] == INITIAL_OID);
        assert p.(truncated := true).(unborn := unborn) == p.(unborn := unborn).(truncated := true);
        FlagOnly(records[1..], p.(unborn := unborn));
      } else if COMMENT <= record {
        FlagOnly(records[1..], p);
      } else if |p.entries| != MAX_ENTRIES {
        var what := Classify(record);
        if what.Untracked? {
          FlagPush(records[1..], p, Change(what.path, None, '?' as int, '?' as int, true, false));
        } else if what.Tracked? && !what.renamed {
          FlagPush(records[1..], p, Change(what.path, None, what.index, what.worktree, false, what.conflicted));
        } else if |records| > 1 {
          FlagPush(records[2..], p, Change(what.path, Some(records[1]), what.index, what.worktree, false, what.conflicted));
        }
      }
    }
  }

  /** A cut that takes nothing away loses nothing. */
  lemma CutAtTheEnd(bytes: Text)
    requires Parse(bytes, false).Status?
    ensures Parse(bytes, true) == Parse(bytes, false).(truncated := true)
  {
    hide Go, Records;
    assert bytes[..AfterLastNul(bytes)] == bytes;
    FlagOnly(Records(bytes), Progress(None, [], false));
  }

  // ----- what the entries mean -----

  predicate EntryOk(c: Change) {
    ValidFile(c.path) && (c.original.Some? ==> ValidFile(c.original.value) && !c.untracked && !c.conflicted)
  }

  lemma ClassifySound(record: Text)
    requires record != []
    ensures var what := Classify(record);
            && (what.Untracked? ==> ValidFile(what.path))
            && (what.Tracked? ==> ValidFile(what.path) && !(what.renamed && what.conflicted))
  {
  }

  lemma {:induction false} EntriesSound(records: seq<Text>, p: Progress)
    requires Complete(records) && Go(records, p).Status?
    requires |p.entries| <= MAX_ENTRIES && forall i :: 0 <= i < |p.entries| ==> EntryOk(p.entries[i])
    ensures var r := Go(records, p);
            |r.entries| <= MAX_ENTRIES && forall i :: 0 <= i < |r.entries| ==> EntryOk(r.entries[i])
    decreases |records|
  {
    hide Utf8, ValidFile, SplitN;
    if records != [] && |p.entries| <= MAX_ENTRIES {
      var record := records[0];
      if OID <= record {
        EntriesSound(records[1..], p.(unborn := Some(record[|OID|..] == INITIAL_OID)));
      } else if COMMENT <= record {
        EntriesSound(records[1..], p);
      } else if |p.entries| < MAX_ENTRIES {
        ClassifySound(record);
        hide Classify;
        var what := Classify(record);
        if what.Untracked? {
          EntriesSound(records[1..], Push(p, Change(what.path, None, '?' as int, '?' as int, true, false)));
        } else if what.Tracked? && !what.renamed {
          EntriesSound(records[1..], Push(p, Change(what.path, None, what.index, what.worktree, false, what.conflicted)));
        } else if |records| > 1 {
          EntriesSound(records[2..], Push(p, Change(what.path, Some(records[1]), what.index, what.worktree, false, what.conflicted)));
        }
      }
    }
  }

  /** Every path that comes out, source paths included, is a checked repository-relative path,
      only tracked entries without conflict have a source, and there are never more than the
      limit. */
  lemma ParsedSound(bytes: Text, truncated: bool)
    requires Parse(bytes, truncated).Status?
    ensures var r := Parse(bytes, truncated);
            |r.entries| <= MAX_ENTRIES && forall i :: 0 <= i < |r.entries| ==> EntryOk(r.entries[i])
  {
    hide Go, Records;
    EntriesSound(if truncated then Records(bytes[..AfterLastNul(bytes)]) else Records(bytes), Progress(None, [], truncated));
  }

  // ----- what Git prints is what is read -----

  /** An entry as `git status --porcelain=v2 -z` prints it; `middle` is the submodule state,
      modes, hashes and rename score, which the parser skips. */
  datatype Printed = NewFile(path: Text)
    | Tracked1(index: Byte, worktree: Byte, middle: seq<Text>, path: Text)
    | Renamed2(index: Byte, worktree: Byte, middle: seq<Text>, path: Text, source: Text)
    | Unmerged(index: Byte, worktree: Byte, middle: seq<Text>, path: Text)

  function Spaced(fields: seq<Text>, last: Text): Text {
    if fields == [] then last else fields[0] + [SPACE] + Spaced(fields[1..], last)
  }

  function FieldsOf(e: Printed): seq<Text>
    requires !e.NewFile?
  {
    var kind: Text := [if e.Tracked1? then '1' as int else if e.Renamed2? then '2' as int else 'u' as int];
    var states: Text := [e.index, e.worktree];
    [kind, states] + e.middle
  }

  function LineOf(e: Printed): Text {
    if e.NewFile? then QUESTION + e.path else Spaced(FieldsOf(e), e.path)
  }

  function RecordsOf(e: Printed): seq<Text> {
    if e.Renamed2? then [LineOf(e), e.source] else [LineOf(e)]
  }

  function EntryOf(e: Printed): Change {
    match e
    case NewFile(path) => Change(path, None, '?' as int, '?' as int, true, false)
    case Tracked1(index, worktree, _, path) => Change(path, None, index, worktree, false, false)
    case Renamed2(index, worktree, _, path, source) => Change(path, Some(source), index, worktree, false, false)
    case Unmerged(index, worktree, _, path) => Change(path, None, index, worktree, false, true)
  }

  predicate Field(f: Text) { SPACE !in f }

  /** Paths are checked paths in UTF-8, fields hold no space, states are two ASCII characters. */
  predicate Printable(e: Printed) {
    && ValidFile(e.path) && Utf8(LineOf(e)) && 0 !in LineOf(e)
    && (!e.NewFile? ==>
          && e.index < 128 && e.worktree < 128 && e.index != SPACE && e.worktree != SPACE
          && |e.middle| == (if e.Tracked1? then 6 else if e.Renamed2? then 7 else 8)
          && forall i :: 0 <= i < |e.middle| ==> Field(e.middle[i]))
    && (e.Renamed2? ==> ValidFile(e.source) && Utf8(e.source) && 0 !in e.source)
  }

  lemma {:induction false} SplitSpaced(fields: seq<Text>, last: Text)
    requires forall i :: 0 <= i < |fields| ==> Field(fields[i])
    ensures SplitN(|fields| + 1, Spaced(fields, last), SPACE) == fields + [last]
  {
    if fields != [] {
      SplitOnceAt(fields[0], SPACE, Spaced(fields[1..], last));
      SplitSpaced(fields[1..], last);
      assert [fields[0]] + (fields[1..] + [last]) == fields + [last];
    }
  }

  /** One printed line is classified as what was printed. */
  lemma LineClassified(e: Printed)
    requires Printable(e)
    ensures LineOf(e) != [] && !(COMMENT <= LineOf(e))
    ensures Classify(LineOf(e)) ==
              if e.NewFile? then Untracked(e.path) else Tracked(e.path, e.index, e.worktree, e.Renamed2?, e.Unmerged?)
  {
    hide ValidFile, Utf8;
    var line := LineOf(e);
    if e.NewFile? {
      assert line[2..] == e.path && line[0] == 63;
    } else {
      var fields := FieldsOf(e);
      assert fields[0] == [line[0]] && line[0] != 63 && line[0] != 35;
      assert fields[1] == [e.index, e.worktree];
      forall i | 0 <= i < |fields| ensures Field(fields[i]) {
        if i >= 2 {
          assert fields[i] == e.middle[i - 2];
        }
      }
      SplitSpaced(fields, e.path);
      assert Fields(line[0]) == |fields| + 1;
      assert (fields + [e.path])[|fields|] == e.path && (fields + [e.path])[1] == fields[1];
    }
  }

  function AllRecords(es: seq<Printed>): seq<Text> {
    if es == [] then [] else RecordsOf(es[0]) + AllRecords(es[1..])
  }

  function Entries(es: seq<Printed>): seq<Change> { seq(|es|, i requires 0 <= i < |es| => EntryOf(es[i])) }

  predicate AllPrintable(es: seq<Printed>) { forall i :: 0 <= i < |es| ==> Printable(es[i]) }

  lemma OidIsComment()
    ensures COMMENT <= OID && |OID| == 13
  {
  }

  lemma SourceNotEmpty(path: Text)
    requires ValidFile(path)
    ensures path != []
  {
  }

  lemma GoOne(e: Printed, rest: seq<Text>, p: Progress)
    requires Printable(e) && Complete(rest) && |p.entries| < MAX_ENTRIES
    ensures Complete(RecordsOf(e) + rest)
    ensures Go(RecordsOf(e) + rest, p) == Go(rest, Push(p, EntryOf(e)))
  {
    hide Classify, ValidFile, Utf8, LineOf, OID;
    LineClassified(e);
    OidIsComment();
    var records := RecordsOf(e) + rest;
    assert records[0] == LineOf(e);
    if e.Renamed2? {
      SourceNotEmpty(e.source);
      assert records[1] == e.source && records[2..] == rest;
    } else {
      assert records[1..] == rest;
    }
  }

  lemma EntriesCons(es: seq<Printed>)
    requires es != []
    ensures Entries(es) == [EntryOf(es[0])] + Entries(es[1..])
  {
    hide EntryOf;
  }

  lemma EntriesOn(es: seq<Printed>, room: nat, before: seq<Change>)
    requires es != [] && room > 0
    ensures before + Entries(es) == before + [EntryOf(es[0])] + Entries(es[1..])
    ensures |es| > room ==> before + Entries(es[..room]) == before + [EntryOf(es[0])] + Entries(es[1..][..room - 1])
  {
    hide EntryOf;
    EntriesCons(es);
    Assoc(before, [EntryOf(es[0])], Entries(es[1..]));
    if |es| > room {
      EntriesCons(es[..room]);
      assert es[..room][1..] == es[1..][..room - 1];
      Assoc(before, [EntryOf(es[0])], Entries(es[1..][..room - 1]));
    }
  }

  lemma NoEntries()
    ensures Entries([]) == []
  {
  }

  lemma GoNothing(p: Progress)
    ensures Go([], p) == Finish(p)
  {
  }

  lemma GoFull(e: Printed, rest: seq<Text>, p: Progress)
    requires Printable(e) && Complete(rest) && |p.entries| == MAX_ENTRIES
    ensures Complete(RecordsOf(e) + rest)
    ensures Go(RecordsOf(e) + rest, p) == Finish(p.(truncated := true))
  {
    hide Classify, ValidFile, Utf8, LineOf, OID;
    LineClassified(e);
    OidIsComment();
    if e.Renamed2? {
      SourceNotEmpty(e.source);
    }
    assert (RecordsOf(e) + rest)[0] == LineOf(e);
  }

  lemma {:induction false} RecordsClean(es: seq<Printed>)
    requires AllPrintable(es)
    ensures Complete(AllRecords(es)) && forall i :: 0 <= i < |AllRecords(es)| ==> 0 !in AllRecords(es)[i]
  {
    hide Classify, ValidFile, Utf8, LineOf;
    if es != [] {
      RecordsClean(es[1..]);
      LineClassified(es[0]);
      if es[0].Renamed2? {
        SourceNotEmpty(es[0].source);
      }
    }
  }

  /** Entry by entry, up to the limit. */
  lemma {:induction false} GoPrinted(es: seq<Printed>, p: Progress)
    requires AllPrintable(es) && |p.entries| <= MAX_ENTRIES
    ensures Complete(AllRecords(es))
    ensures Go(AllRecords(es), p) ==
              var room := MAX_ENTRIES - |p.entries|;
              if |es| <= room then Finish(p.(entries := p.entries + Entries(es)))
              else Finish(p.(entries := p.entries + Entries(es[..room]), truncated := true))
    decreases |es|
  {
    hide Classify, ValidFile, Utf8, LineOf, OID, Go, Printable, Entries, RecordsOf, EntryOf;
    NoEntries();
    if es == [] {
      assert p.entries + [] == p.entries;
      GoNothing(p);
    } else {
      RecordsClean(es[1..]);
      if |p.entries| < MAX_ENTRIES {
        GoPrinted(es[1..], Push(p, EntryOf(es[0])));
        GoOne(es[0], AllRecords(es[1..]), p);
        EntriesOn(es, MAX_ENTRIES - |p.entries|, p.entries);
      } else {
        GoFull(es[0], AllRecords(es[1..]), p);
        assert es[..0] == [] && p.entries + [] == p.entries;
      }
    }
  }

  function Terminated(records: seq<Text>): Text {
    if records == [] then [] else records[0] + [0] + Terminated(records[1..])
  }

  lemma NoRecords()
    ensures Records([]) == []
  {
    SplitNothing();
    var one: seq<Text> := [[]];
    assert one[1..] == [] && NonEmpty(one) == [];
  }

  lemma OneRecord(record: Text)
    requires record != [] && 0 !in record
    ensures Records(record + [0]) == [record]
  {
    assert record + [0] == record + [0] + [];
    SplitAt(record, 0, []);
    SplitNothing();
    var two: seq<Text> := [record, []];
    var one: seq<Text> := [[]];
    assert [record] + one == two && two[1..] == one && one[1..] == [];
    assert NonEmpty(one) == [];
  }

  lemma TerminatedLine(record: Text, rest: seq<Text>)
    requires record != [] && 0 !in record
    ensures Records(record + [0] + Terminated(rest)) == [record] + Records(Terminated(rest))
    ensures var line := record + [0] + Terminated(rest);
            Terminated(rest) == [] || Terminated(rest)[|Terminated(rest)| - 1] == 0 ==> line[|line| - 1] == 0
  {
    hide Records, Terminated;
    OneRecord(record);
    RecordsAtNul(record + [0], Terminated(rest));
  }

  lemma {:induction false} TerminatedRecords(records: seq<Text>)
    requires Complete(records) && forall i :: 0 <= i < |records| ==> 0 !in records[i]
    ensures Records(Terminated(records)) == records
    ensures Terminated(records) == [] || Terminated(records)[|Terminated(records)| - 1] == 0
  {
    hide Records;
    if records == [] {
      NoRecords();
    } else {
      TerminatedRecords(records[1..]);
      TerminatedLine(records[0], records[1..]);
      assert [records[0]] + records[1..] == records;
    }
  }

  /** A header line other than the one of the commit. */
  predicate OtherHeader(record: Text) { COMMENT <= record && !(OID <= record) && Utf8(record) && 0 !in record }

  /** The records of an output with the headers first. */
  function WithHead(before: seq<Text>, oid: Text, after: seq<Text>, body: seq<Text>): seq<Text> {
    before + [OID + oid] + after + body
  }

  /** The whole output for a HEAD, the other headers and a list of changes. */
  function Print(before: seq<Text>, oid: Text, after: seq<Text>, es: seq<Printed>): Text {
    Terminated(WithHead(before, oid, after, AllRecords(es)))
  }

  lemma OidClean()
    ensures 0 !in OID
  {
  }

  lemma {:induction false} HeadersSkipped(headers: seq<Text>, rest: seq<Text>, p: Progress)
    requires forall i :: 0 <= i < |headers| ==> OtherHeader(headers[i])
    requires Complete(rest)
    ensures Complete(headers + rest) && Go(headers + rest, p) == Go(rest, p)
    decreases |headers|
  {
    hide Classify, ValidFile, Utf8, OID;
    if headers == [] {
      assert headers + rest == rest;
    } else {
      HeadersSkipped(headers[1..], rest, p);
      assert (headers + rest)[0] == headers[0] && (headers + rest)[1..] == headers[1..] + rest;
    }
  }

  lemma HeadRead(oid: Text, rest: seq<Text>, p: Progress)
    requires Complete(rest) && Utf8(OID + oid)
    ensures Complete([OID + oid] + rest)
    ensures Go([OID + oid] + rest, p) == Go(rest, p.(unborn := Some(oid == INITIAL_OID)))
  {
    hide Classify, ValidFile, Utf8, OID, INITIAL_OID;
    OidIsComment();
    var records := [OID + oid] + rest;
    assert records[0][|OID|..] == oid && records[1..] == rest;
  }

  /** The headers leave the HEAD behind and nothing else. */
  lemma HeadersRead(before: seq<Text>, oid: Text, after: seq<Text>, rest: seq<Text>, p: Progress)
    requires forall i :: 0 <= i < |before| ==> OtherHeader(before[i])
    requires forall i :: 0 <= i < |after| ==> OtherHeader(after[i])
    requires Complete(rest) && Utf8(OID + oid)
    ensures Complete(before + [OID + oid] + after + rest)
    ensures Go(before + [OID + oid] + after + rest, p) == Go(rest, p.(unborn := Some(oid == INITIAL_OID)))
  {
    hide Go, Classify, ValidFile, Utf8, OID, OtherHeader;
    HeadersSkipped(after, rest, p.(unborn := Some(oid == INITIAL_OID)));
    HeadRead(oid, after + rest, p);
    HeadersSkipped(before, [OID + oid] + (after + rest), p);
    assert before + ([OID + oid] + (after + rest)) == before + [OID + oid] + after + rest;
  }

  lemma HeadersClean(before: seq<Text>, oid: Text, after: seq<Text>, rest: seq<Text>)
    requires forall i :: 0 <= i < |before| ==> OtherHeader(before[i])
    requires forall i :: 0 <= i < |after| ==> OtherHeader(after[i])
    requires 0 !in oid && Complete(rest) && forall i :: 0 <= i < |rest| ==> 0 !in rest[i]
    ensures var records := before + [OID + oid] + after + rest;
            Complete(records) && forall i :: 0 <= i < |records| ==> 0 !in records[i]
  {
    hide Utf8, OID;
    OidClean();
    OidIsComment();
  }

  lemma ParsesBody(before: seq<Text>, oid: Text, after: seq<Text>, body: seq<Text>)
    requires Utf8(OID + oid) && 0 !in oid
    requires forall i :: 0 <= i < |before| ==> OtherHeader(before[i])
    requires forall i :: 0 <= i < |after| ==> OtherHeader(after[i])
    requires Complete(body) && forall i :: 0 <= i < |body| ==> 0 !in body[i]
    ensures Parse(Terminated(WithHead(before, oid, after, body)), false) == Go(body, Progress(Some(oid == INITIAL_OID), [], false))
  {
    hide Utf8, Records, OID, INITIAL_OID, Go, OtherHeader, Terminated;
    HeadersClean(before, oid, after, body);
    TerminatedRecords(WithHead(before, oid, after, body));
    HeadersRead(before, oid, after, body, Progress(None, [], false));
  }

  /** Everything printed is read back, in order and with nothing exchanged, whatever other
      headers there are; beyond the limit the first entries are kept and the flag is set. */
  lemma ReadsWhatIsPrinted(before: seq<Text>, oid: Text, after: seq<Text>, es: seq<Printed>)
    requires AllPrintable(es) && Utf8(OID + oid) && 0 !in oid
    requires forall i :: 0 <= i < |before| ==> OtherHeader(before[i])
    requires forall i :: 0 <= i < |after| ==> OtherHeader(after[i])
    ensures Parse(Print(before, oid, after, es), false) ==
              if |es| <= MAX_ENTRIES then Status(oid == INITIAL_OID, Entries(es), false)
              else Status(oid == INITIAL_OID, Entries(es[..MAX_ENTRIES]), true)
  {
    hide Classify, ValidFile, Utf8, LineOf, OID, INITIAL_OID, Printable, Go, Parse, OtherHeader, WithHead;
    RecordsClean(es);
    ParsesBody(before, oid, after, AllRecords(es));
    GoPrinted(es, Progress(Some(oid == INITIAL_OID), [], false));
  }

  // ----- and nothing but what can be printed is read -----

  /** A name in a path. */
  predicate Plain(name: Text) { name != [] && name != [DOT] && name != [DOT, DOT] && SLASH !in name && 0 !in name }

  lemma {:induction false} JoinedPlain(names: seq<Text>)
    requires names != [] && forall i :: 0 <= i < |names| ==> Plain(names[i])
    ensures var p := Join(names, SLASH); p != [] && p[0] != SLASH && p[|p| - 1] != SLASH && 0 !in p
  {
    if |names| > 1 {
      JoinedPlain(names[1..]);
    }
  }

  lemma {:induction false} PiecesInside(pieces: seq<Text>, sep: Byte)
    requires pieces != []
    ensures forall i, b :: 0 <= i < |pieces| && b in pieces[i] ==> b in Join(pieces, sep)
  {
    if |pieces| > 1 {
      PiecesInside(pieces[1..], sep);
      forall i, b | 0 <= i < |pieces| && b in pieces[i] ensures b in Join(pieces, sep) {
        if i > 0 {
          assert pieces[1..][i - 1] == pieces[i];
        }
      }
    }
  }

  /** These names joined by slashes, with or without one slash at the end. */
  predicate PathOf(names: seq<Text>, path: Text) {
    && names != [] && (forall i :: 0 <= i < |names| ==> Plain(names[i]))
    && (path == Join(names, SLASH) || path == Join(names, SLASH) + [SLASH])
  }

  lemma NamesOfValid(path: Text) returns (names: seq<Text>)
    requires ValidFile(path)
    ensures PathOf(names, path)
  {
    hide Join;
    var p: Text := if path != [] && path[|path| - 1] == SLASH then path[..|path| - 1] else path;
    names := Split(p, SLASH);
    JoinSplit(p, SLASH);
    PiecesInside(names, SLASH);
    forall i | 0 <= i < |names| ensures Plain(names[i]) {
      assert Component(names[i]);
    }
    assert path == p || path == p + [SLASH];
  }

  lemma PathIsValid(names: seq<Text>, path: Text)
    requires PathOf(names, path)
    ensures ValidFile(path)
  {
    hide Split, Join;
    JoinedPlain(names);
    SplitJoin(names, SLASH);
    var p := Join(names, SLASH);
    assert path == p + [SLASH] ==> path[..|path| - 1] == p;
    assert Components(names);
  }

  /** The accepted paths are exactly one or more plain names joined by slashes, with or without
      one slash at the end. */
  lemma ValidFileExactly(path: Text)
    ensures ValidFile(path) <==> exists names :: PathOf(names, path)
  {
    hide ValidFile, PathOf;
    if ValidFile(path) {
      var names := NamesOfValid(path);
    }
    if names :| PathOf(names, path) {
      PathIsValid(names, path);
    }
  }

  lemma {:induction false} SplitNExactly(n: nat, s: Text, fields: seq<Text>)
    requires n >= 1 && |fields| == n
    ensures SplitN(n, s, SPACE) == fields <==>
              s == Spaced(fields[..n - 1], fields[n - 1]) && forall i :: 0 <= i < n - 1 ==> SPACE !in fields[i]
    decreases n
  {
    if n > 1 {
      SplitOnceFound(s, SPACE);
      var rest := fields[1..];
      assert rest[..n - 2] == fields[..n - 1][1..];
      assert fields == [fields[0]] + rest;
      if SplitOnce(s, SPACE).Some? {
        var (head, tail) := SplitOnce(s, SPACE).value;
        SplitNExactly(n - 1, tail, rest);
      }
      if s == Spaced(fields[..n - 1], fields[n - 1]) && forall i :: 0 <= i < n - 1 ==> SPACE !in fields[i] {
        SplitOnceAt(fields[0], SPACE, Spaced(rest[..n - 2], fields[n - 1]));
        assert forall i :: 0 <= i < n - 2 ==> rest[i] == fields[i + 1];
      }
    }
  }

  /** A line for an entry that is already tracked, over the bytes: the given number of fields with
      a space after each but the last, the first beginning with its kind, the second the two
      states and the last the path. */
  ghost predicate TrackedLine(record: Text, kind: Byte, count: nat, path: Text, index: Byte, worktree: Byte) {
    exists fields: seq<Text> ::
      && |fields| == count - 1 >= 2 && (forall i :: 0 <= i < |fields| ==> SPACE !in fields[i])
      && fields[1] == [index, worktree] && record == Spaced(fields, path) && record[..1] == [kind]
  }

  /** Which records read as what, over the bytes. */
  ghost predicate ReadsAs(record: Text, what: Record) {
    match what
    case Bad(_) => false
    case Untracked(path) => record == [63, SPACE] + path && ValidFile(path)
    case Tracked(path, index, worktree, renamed, conflicted) =>
      && ValidFile(path) && index < 128 && worktree < 128 && !(renamed && conflicted)
      && (if renamed then TrackedLine(record, '2' as int, 10, path, index, worktree)
          else if conflicted then TrackedLine(record, 'u' as int, 11, path, index, worktree)
          else TrackedLine(record, '1' as int, 9, path, index, worktree))
  }

  lemma TrackedLineExactly(record: Text, kind: Byte, count: nat, path: Text, index: Byte, worktree: Byte)
    requires record != [] && count >= 3
    ensures TrackedLine(record, kind, count, path, index, worktree) <==>
              var fields := SplitN(count, record, SPACE);
              record[0] == kind && |fields| == count && fields[1] == [index, worktree] && fields[count - 1] == path
  {
    hide SplitN, Spaced;
    var found := SplitN(count, record, SPACE);
    if |found| == count {
      SplitNExactly(count, record, found);
      var init := found[..count - 1];
      assert record[..1] == [record[0]];
      assert found == init + [found[count - 1]];
    }
    if TrackedLine(record, kind, count, path, index, worktree) {
      var fields: seq<Text> :|
        && |fields| == count - 1 >= 2 && (forall i :: 0 <= i < |fields| ==> SPACE !in fields[i])
        && fields[1] == [index, worktree] && record == Spaced(fields, path) && record[..1] == [kind];
      var whole := fields + [path];
      assert whole[..count - 1] == fields;
      SplitNExactly(count, record, whole);
      assert record[..1][0] == kind;
    }
  }

  /** A record reads as an entry if and only if it is such a line. */
  lemma ClassifyExactly(record: Text, what: Record)
    requires record != [] && !what.Bad?
    ensures Classify(record) == what <==> ReadsAs(record, what)
  {
    hide SplitN, ValidFile, TrackedLine;
    if what.Untracked? {
      assert QUESTION <= record ==> record == [63, SPACE] + record[2..];
      assert record == [63, SPACE] + what.path ==> record[2..] == what.path && QUESTION <= record;
    } else {
      var kind := if what.renamed then '2' as int else if what.conflicted then 'u' as int else '1' as int;
      TrackedLineExactly(record, kind, Fields(kind), what.path, what.index, what.worktree);
      var fields := SplitN(Fields(kind), record, SPACE);
      if |fields| == Fields(kind) && |fields[1]| == 2 {
        assert fields[1] == [fields[1][0], fields[1][1]];
      }
    }
  }

  lemma {:induction false} GoAfter(es: seq<Printed>, tail: seq<Text>, p: Progress)
    requires AllPrintable(es) && Complete(tail) && |p.entries| + |es| <= MAX_ENTRIES
    ensures Complete(AllRecords(es) + tail)
    ensures Go(AllRecords(es) + tail, p) == Go(tail, p.(entries := p.entries + Entries(es)))
    decreases |es|
  {
    hide Classify, ValidFile, Utf8, LineOf, OID, Go, Printable, Entries, RecordsOf, EntryOf;
    NoEntries();
    if es == [] {
      assert AllRecords(es) + tail == tail && p.entries + [] == p.entries;
    } else {
      RecordsClean(es);
      GoAfter(es[1..], tail, Push(p, EntryOf(es[0])));
      GoOne(es[0], AllRecords(es[1..]) + tail, p);
      EntriesOn(es, MAX_ENTRIES - |p.entries|, p.entries);
      Assoc(RecordsOf(es[0]), AllRecords(es[1..]), tail);
    }
  }

  /** A record that is neither a header nor such a line, or the head of a rename whose source is
      missing or not an accepted path. */
  ghost predicate Unreadable(records: seq<Text>)
    requires records != []
  {
    var record := records[0];
    || !Utf8(record)
    || (!(COMMENT <= record) && forall what :: !ReadsAs(record, what))
    || (!(COMMENT <= record)
        && (exists path, index, worktree :: ReadsAs(record, Tracked(path, index, worktree, true, false)))
        && (|records| == 1 || !Utf8(records[1]) || !ValidFile(records[1])))
  }

  lemma UnreadableFails(records: seq<Text>, p: Progress)
    requires Complete(records) && records != [] && Unreadable(records) && |p.entries| < MAX_ENTRIES && !p.truncated
    ensures Go(records, p).Failed?
  {
    hide ReadsAs, ValidFile, Utf8, Classify, OID;
    OidIsComment();
    var record := records[0];
    if Utf8(record) {
      var what := Classify(record);
      if !what.Bad? {
        ClassifyExactly(record, what);
      }
      if path, index, worktree :| ReadsAs(record, Tracked(path, index, worktree, true, false)) {
        ClassifyExactly(record, Tracked(path, index, worktree, true, false));
      }
    }
  }

  lemma BodyClean(es: seq<Printed>, rest: seq<Text>)
    requires AllPrintable(es) && Complete(rest) && forall i :: 0 <= i < |rest| ==> 0 !in rest[i]
    ensures Complete(AllRecords(es) + rest)
    ensures forall i :: 0 <= i < |AllRecords(es) + rest| ==> 0 !in (AllRecords(es) + rest)[i]
  {
    hide Printable, AllRecords;
    RecordsClean(es);
  }

  lemma UnreadableAfter(es: seq<Printed>, rest: seq<Text>, p: Progress)
    requires AllPrintable(es) && Complete(rest) && rest != [] && Unreadable(rest)
    requires p.entries == [] && |es| < MAX_ENTRIES && !p.truncated
    ensures Complete(AllRecords(es) + rest) && Go(AllRecords(es) + rest, p).Failed?
  {
    hide Printable, AllRecords, Unreadable, Go, EntryOf;
    GoAfter(es, rest, p);
    UnreadableFails(rest, p.(entries := p.entries + Entries(es)));
  }

  /** One unreadable record below the limit and nothing is accepted, whatever stands around it. */
  lemma UnreadableRefused(before: seq<Text>, oid: Text, after: seq<Text>, es: seq<Printed>, rest: seq<Text>)
    requires AllPrintable(es) && Utf8(OID + oid) && 0 !in oid && |es| < MAX_ENTRIES
    requires forall i :: 0 <= i < |before| ==> OtherHeader(before[i])
    requires forall i :: 0 <= i < |after| ==> OtherHeader(after[i])
    requires Complete(rest) && (forall i :: 0 <= i < |rest| ==> 0 !in rest[i]) && rest != [] && Unreadable(rest)
    ensures Parse(Terminated(WithHead(before, oid, after, AllRecords(es) + rest)), false).Failed?
  {
    hide *;
    var body := AllRecords(es) + rest;
    assert Complete(body) && forall i :: 0 <= i < |body| ==> 0 !in body[i] by { BodyClean(es, rest); }
    var p := Progress(Some(oid == INITIAL_OID), [], false);
    assert Go(body, p).Failed? by { UnreadableAfter(es, rest, p); }
    ParsesBody(before, oid, after, body);
  }

  /** And an output that is not cut off must end with a NUL and name its HEAD. */
  lemma IncompleteRefused(bytes: Text)
    requires bytes != [] && bytes[|bytes| - 1] != 0
    ensures Parse(bytes, false) == Failed(Incomplete)
  {
  }

  // ----- UTF-8 -----

  predicate Scalar(c: nat) { c < 0xd800 || 0xe000 <= c <= 0x10ffff }

  /** RFC 3629 section 3. */
  function Encoded(c: nat): Text
    requires Scalar(c)
  {
    if c < 0x80 then [c]
    else if c < 0x800 then [0xc0 + c / 64, 0x80 + c % 64]
    else if c < 0x10000 then [0xe0 + c / 4096, 0x80 + c / 64 % 64, 0x80 + c % 64]
    else [0xf0 + c / 262144, 0x80 + c / 4096 % 64, 0x80 + c / 64 % 64, 0x80 + c % 64]
  }

  function EncodedAll(cs: seq<nat>): Text
    requires forall i :: 0 <= i < |cs| ==> Scalar(cs[i])
  {
    if cs == [] then [] else Encoded(cs[0]) + EncodedAll(cs[1..])
  }

  lemma EncodedTwo(c: nat)
    requires 0x80 <= c < 0x800
    ensures var e := Encoded(c); |e| == 2 && 0xc2 <= e[0] <= 0xdf && Continues(e[1])
  {
  }

  lemma EncodedThree(c: nat)
    requires 0x800 <= c < 0x10000 && Scalar(c)
    ensures var e := Encoded(c);
            && |e| == 3 && 0xe0 <= e[0] <= 0xef && Continues(e[1]) && Continues(e[2])
            && (e[0] == 0xe0 ==> e[1] >= 0xa0) && (e[0] == 0xed ==> e[1] <= 0x9f)
  {
  }

  lemma EncodedFour(c: nat)
    requires 0x10000 <= c && Scalar(c)
    ensures var e := Encoded(c);
            && |e| == 4 && 0xf0 <= e[0] <= 0xf4 && Continues(e[1]) && Continues(e[2]) && Continues(e[3])
            && (e[0] == 0xf0 ==> e[1] >= 0x90) && (e[0] == 0xf4 ==> e[1] <= 0x8f)
  {
  }

  lemma EncodedIsUtf8(c: nat, rest: Text)
    requires Scalar(c)
    ensures Utf8(Encoded(c) + rest) <==> Utf8(rest)
  {
    var e := Encoded(c);
    var s := e + rest;
    assert s[|e|..] == rest;
    if c >= 0x80 {
      hide Encoded, Scalar, Continues;
      if c < 0x800 {
        EncodedTwo(c);
      } else if c < 0x10000 {
        EncodedThree(c);
      } else {
        EncodedFour(c);
      }
      assert forall i :: 0 <= i < |e| ==> s[i] == e[i];
    }
  }

  lemma Sextet(a: nat, b: nat)
    requires b < 64
    ensures (64 * a + b) / 64 == a && (64 * a + b) % 64 == b
  {
  }

  lemma Sextets(a: nat, b: nat, c: nat)
    requires b < 64 && c < 64
    ensures (4096 * a + 64 * b + c) / 4096 == a
    ensures (4096 * a + 64 * b + c) / 64 % 64 == b
    ensures (4096 * a + 64 * b + c) % 64 == c
  {
    Sextet(64 * a + b, c);
    Sextet(a, b);
    assert 4096 * a + 64 * b + c == 64 * (64 * a + b) + c;
  }

  lemma MoreSextets(a: nat, b: nat, c: nat, d: nat)
    requires b < 64 && c < 64 && d < 64
    ensures var n := 262144 * a + 4096 * b + 64 * c + d;
            n / 262144 == a && n / 4096 % 64 == b && n / 64 % 64 == c && n % 64 == d
  {
    Sextets(64 * a + b, c, d);
    Sextet(a, b);
    var n := 262144 * a + 4096 * b + 64 * c + d;
    assert n == 4096 * (64 * a + b) + 64 * c + d;
  }

  lemma Two(s: Text) returns (c: nat)
    requires |s| >= 2 && 0xc2 <= s[0] <= 0xdf && Continues(s[1])
    ensures Scalar(c) && Encoded(c) == [s[0], s[1]] == s[..2]
  {
    var a, b := s[0] as int - 0xc0, s[1] as int - 0x80;
    c := 64 * a + b;
    Sextet(a, b);
  }

  lemma Three(s: Text) returns (c: nat)
    requires |s| >= 3 && 0xe0 <= s[0] <= 0xef && Continues(s[1]) && Continues(s[2])
    requires (s[0] == 0xe0 ==> s[1] >= 0xa0) && (s[0] == 0xed ==> s[1] <= 0x9f)
    ensures Scalar(c) && Encoded(c) == [s[0], s[1], s[2]] == s[..3]
  {
    var a, b, d := s[0] as int - 0xe0, s[1] as int - 0x80, s[2] as int - 0x80;
    c := 4096 * a + 64 * b + d;
    Sextets(a, b, d);
  }

  lemma Four(s: Text) returns (c: nat)
    requires |s| >= 4 && 0xf0 <= s[0] <= 0xf4 && Continues(s[1]) && Continues(s[2]) && Continues(s[3])
    requires (s[0] == 0xf0 ==> s[1] >= 0x90) && (s[0] == 0xf4 ==> s[1] <= 0x8f)
    ensures Scalar(c) && Encoded(c) == [s[0], s[1], s[2], s[3]] == s[..4]
  {
    var a, b, d, e := s[0] as int - 0xf0, s[1] as int - 0x80, s[2] as int - 0x80, s[3] as int - 0x80;
    c := 262144 * a + 4096 * b + 64 * d + e;
    MoreSextets(a, b, d, e);
  }

  /** The first scalar of a nonempty well-formed text. */
  lemma FirstScalar(s: Text) returns (c: nat)
    requires s != [] && Utf8(s)
    ensures Scalar(c) && Encoded(c) <= s && Utf8(s[|Encoded(c)|..])
  {
    if s[0] < 0x80 {
      c := s[0];
      assert Encoded(c) == s[..1];
    } else {
      hide Encoded, Scalar;
      if s[0] <= 0xdf {
        c := Two(s);
      } else if s[0] <= 0xef {
        c := Three(s);
      } else {
        c := Four(s);
      }
    }
  }

  lemma {:induction false} Utf8Encodes(s: Text) returns (cs: seq<nat>)
    requires Utf8(s)
    ensures forall i :: 0 <= i < |cs| ==> Scalar(cs[i])
    ensures s == EncodedAll(cs)
    decreases |s|
  {
    if s == [] {
      cs := [];
    } else {
      var c := FirstScalar(s);
      var rest := Utf8Encodes(s[|Encoded(c)|..]);
      cs := [c] + rest;
      assert s == Encoded(c) + s[|Encoded(c)|..];
    }
  }

  lemma {:induction false} EncodedAllIsUtf8(cs: seq<nat>)
    requires forall i :: 0 <= i < |cs| ==> Scalar(cs[i])
    ensures Utf8(EncodedAll(cs))
  {
    if cs != [] {
      EncodedAllIsUtf8(cs[1..]);
      EncodedIsUtf8(cs[0], EncodedAll(cs[1..]));
    }
  }

  /** Well-formed means exactly: the encoding of some Unicode scalar values. */
  lemma Utf8Exactly(s: Text)
    ensures Utf8(s) <==> exists cs: seq<nat> :: (forall i :: 0 <= i < |cs| ==> Scalar(cs[i])) && s == EncodedAll(cs)
  {
    hide Utf8, Scalar;
    if Utf8(s) {
      var cs := Utf8Encodes(s);
    }
    if cs: seq<nat> :| (forall i :: 0 <= i < |cs| ==> Scalar(cs[i])) && s == EncodedAll(cs) {
      EncodedAllIsUtf8(cs);
    }
  }
}
