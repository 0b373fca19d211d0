/** Mapping between WSL paths and their Windows UNC form (wslpath.rs). */
module WslPath {
  import opened Bytes

  const HOST: string := "\\\\wsl.localhost"
  const LEGACY: string := "\\\\wsl$"
  const BACKSLASH: char := '\\'

  datatype Problem = NotAbsolute | HasNul | HasBackslash | DotComponent | HasColon | EndsBadly
    | EmptyDistro | DistroSeparator | NoDistro | ForeignUnc | NotAWindowsPath

  datatype Result<T> = Ok(value: T) | Err(why: Problem)

  datatype Linux = Linux(distro: Option<string>, path: string)

  // ----- the checks -----

  /** What is wrong with one component, if anything. */
  function ComponentProblem(c: string): (p: Option<Problem>)
    ensures c == "." || c == ".." <==> p == Some(DotComponent)
    ensures p.Some? ==> p.value.DotComponent? || p.value.HasColon? || p.value.EndsBadly?
  {
    if c == "." || c == ".." then Some(DotComponent)
    else if ':' in c then Some(HasColon)
    else if c != "" && (c[|c| - 1] == '.' || c[|c| - 1] == ' ') then Some(EndsBadly)
    else None
  }

  function FirstProblem(components: seq<string>): (p: Option<Problem>)
    ensures p.Some? ==> p.value.DotComponent? || p.value.HasColon? || p.value.EndsBadly?
  {
    if components == [] then None
    else if ComponentProblem(components[0]).Some? then ComponentProblem(components[0])
    else FirstProblem(components[1..])
  }

  function Kept(pieces: seq<string>): seq<string> {
    if pieces == [] then [] else (if pieces[0] == "" then [] else [pieces[0]]) + Kept(pieces[1..])
  }

  /** `split(sep).filter(nonempty)`. */
  function Parts(s: string, sep: char): seq<string> { Kept(Split(s, sep)) }

  function ValidateLinuxPath(path: string): Option<Problem> {
    if path == "" || path[0] != '/' then Some(NotAbsolute)
    else if '\0' in path then Some(HasNul)
    else if BACKSLASH in path then Some(HasBackslash)
    else FirstProblem(Parts(path, '/'))
  }

  function ValidateDistro(distro: string): Option<Problem> {
    if distro == "" then Some(EmptyDistro)
    else if '/' in distro || BACKSLASH in distro || '\0' in distro then Some(DistroSeparator)
    else ComponentProblem(distro)
  }

  // ----- to UNC -----

  /** Each component with a separator before it. */
  function Prefixed(parts: seq<string>, sep: char): string {
    if parts == [] then "" else [sep] + parts[0] + Prefixed(parts[1..], sep)
  }

  /** The components joined again; none at all is the separator alone. */
  function Rooted(parts: seq<string>, sep: char): string {
    if parts == [] then [sep] else Prefixed(parts, sep)
  }

  function ToUncOf(distro: string, path: string): Result<string> {
    if ValidateDistro(distro).Some? then Err(ValidateDistro(distro).value)
    else if ValidateLinuxPath(path).Some? then Err(ValidateLinuxPath(path).value)
    else Ok(HOST + [BACKSLASH] + distro + Rooted(Parts(path, '/'), BACKSLASH))
  }

  method AppendParts(prefix: string, parts: seq<string>, sep: char) returns (out: string)
    ensures out == prefix + Prefixed(parts, sep)
  {
    out := prefix;
    for i := 0 to |parts|
      invariant out + Prefixed(parts[i..], sep) == prefix + Prefixed(parts, sep)
    {
      assert parts[i..][1..] == parts[i + 1..];
      Assoc(out, [sep] + parts[i], Prefixed(parts[i + 1..], sep));
      out := out + ([sep] + parts[i]);
    }
  }

  method ToUnc(distro: string, path: string) returns (r: Result<string>)
    ensures r == ToUncOf(distro, path)
  {
    if ValidateDistro(distro).Some? {
      return Err(ValidateDistro(distro).value);
    }
    if ValidateLinuxPath(path).Some? {
      return Err(ValidateLinuxPath(path).value);
    }
    var unc := HOST + [BACKSLASH] + distro;
    unc := AppendParts(unc, Parts(path, '/'), BACKSLASH);
    if Parts(path, '/') == [] {
      assert HOST + [BACKSLASH] + distro + "" == HOST + [BACKSLASH] + distro;
      unc := unc + [BACKSLASH];
    }
    r := Ok(unc);
  }

  // ----- from a Windows path -----

  function Lower(c: char): char { if 'A' <= c <= 'Z' then c - 'A' + 'a' else c }

  function LowerAll(s: string): string { seq(|s|, i requires 0 <= i < |s| => Lower(s[i])) }

  function Backslashed(s: string): (r: string)
    ensures |r| == |s| && '/' !in r
    ensures forall i :: 0 <= i < |s| ==> r[i] == (if s[i] == '/' then BACKSLASH else s[i])
  {
    seq(|s|, i requires 0 <= i < |s| => if s[i] == '/' then BACKSLASH else s[i])
  }

  function StripPrefix(path: string, prefix: string): Option<string> {
    if |path| < |prefix| || LowerAll(path[..|prefix|]) != prefix then None
    else
      var rest := path[|prefix|..];
      if rest == "" then Some(rest) else if rest[0] == BACKSLASH then Some(rest[1..]) else None
  }

  function StripWslUnc(path: string): Option<string> {
    if StripPrefix(path, HOST).Some? then StripPrefix(path, HOST) else StripPrefix(path, LEGACY)
  }

  /** The folded drive letter and what follows `X:\`. */
  function StripDrive(path: string): Option<(char, string)> {
    if |path| >= 3 && 'a' <= Lower(path[0]) <= 'z' && path[1] == ':' && path[2] == BACKSLASH
    then Some((Lower(path[0]), path[3..]))
    else None
  }

  function JoinLinux(prefix: string, tail: string): string {
    var out := prefix + Prefixed(Parts(tail, BACKSLASH), '/');
    if out == "" then "/" else out
  }

  method JoinTail(prefix: string, tail: string) returns (out: string)
    ensures out == JoinLinux(prefix, tail)
  {
    out := AppendParts(prefix, Parts(tail, BACKSLASH), '/');
    if out == "" {
      out := "/";
    }
  }

  function Checked(l: Linux): Result<Linux> {
    match ValidateLinuxPath(l.path)
    case Some(why) => Err(why)
    case None => Ok(l)
  }

  function FromWindowsPathOf(path: string): Result<Linux> {
    var normalized := Backslashed(path);
    match StripWslUnc(normalized)
    case Some(rest) =>
      var (distro, tail) := match SplitOnce(rest, BACKSLASH)
        case None => (rest, "")
        case Some((d, t)) => (d, t);
      if distro == "" then Err(NoDistro)
      else if ValidateDistro(distro).Some? then Err(ValidateDistro(distro).value)
      else Checked(Linux(Some(distro), JoinLinux("", tail)))
    case None =>
      if |normalized| >= 2 && normalized[0] == BACKSLASH && normalized[1] == BACKSLASH then Err(ForeignUnc)
      else match StripDrive(normalized)
        case None => Err(NotAWindowsPath)
        case Some((letter, tail)) => Checked(Linux(None, JoinLinux("/mnt/" + [letter], tail)))
  }

  // ----- components and separators -----

  lemma {:induction false} SplitPieces(s: string, sep: char)
    ensures forall i :: 0 <= i < |Split(s, sep)| ==>
              sep !in Split(s, sep)[i] && forall c :: c in Split(s, sep)[i] ==> c in s
  {
    if s != "" {
      SplitPieces(s[1..], sep);
      var rest := Split(s[1..], sep);
      assert forall c :: c in s[1..] ==> c in s;
      forall i | 0 <= i < |Split(s, sep)|
        ensures sep !in Split(s, sep)[i] && forall c :: c in Split(s, sep)[i] ==> c in s
      {
        if s[0] == sep {
          assert i > 0 ==> Split(s, sep)[i] == rest[i - 1];
        } else if i == 0 {
          assert Split(s, sep)[0] == [s[0]] + rest[0];
        } else {
          assert Split(s, sep)[i] == rest[i];
        }
      }
    }
  }

  /** Components: not empty, free of the separator, made of the characters of the whole. */
  predicate AreParts(parts: seq<string>, sep: char) {
    forall i :: 0 <= i < |parts| ==> parts[i] != "" && sep !in parts[i]
  }

  lemma {:induction false} KeptPieces(pieces: seq<string>)
    ensures forall part :: part in Kept(pieces) ==> part in pieces && part != ""
  {
    if pieces != [] {
      KeptPieces(pieces[1..]);
      assert pieces == [pieces[0]] + pieces[1..];
    }
  }

  lemma KeptCons(head: string, rest: seq<string>)
    requires head != ""
    ensures Kept([head] + rest) == [head] + Kept(rest)
  {
    assert ([head] + rest)[1..] == rest;
  }

  lemma NoPieces()
    ensures Kept([]) == []
  {
  }

  lemma NoParts(sep: char)
    ensures Parts("", sep) == []
  {
    assert Kept([""]) == [] + Kept([]);
  }

  lemma PartsAre(s: string, sep: char)
    ensures AreParts(Parts(s, sep), sep)
    ensures forall i, c :: 0 <= i < |Parts(s, sep)| && c in Parts(s, sep)[i] ==> c in s
  {
    SplitPieces(s, sep);
    KeptPieces(Split(s, sep));
    var parts := Parts(s, sep);
    forall i | 0 <= i < |parts| ensures parts[i] != "" && sep !in parts[i] && forall c :: c in parts[i] ==> c in s {
      assert parts[i] in parts;
    }
  }

  lemma PartsSkipSeparator(s: string, sep: char)
    ensures Parts([sep] + s, sep) == Parts(s, sep)
  {
    var all := [sep] + s;
    assert all[1..] == s;
    var rest := Split(s, sep);
    assert Split(all, sep) == [""] + rest;
    assert ([""] + rest)[1..] == rest;
  }

  /** Joining components and splitting again gives the same components. */
  lemma {:induction false} PartsOfPrefixed(parts: seq<string>, sep: char)
    requires AreParts(parts, sep)
    ensures Parts(Prefixed(parts, sep), sep) == parts
  {
    if parts == [] {
      NoParts(sep);
    } else {
      hide Kept, Split;
      var head, tail := parts[0], Prefixed(parts[1..], sep);
      PartsOfPrefixed(parts[1..], sep);
      Assoc([sep], head, tail);
      assert Prefixed(parts, sep) == [sep] + (head + tail);
      PartsSkipSeparator(head + tail, sep);
      if parts[1..] == [] {
        assert head + tail == head;
        SplitSingle(head, sep);
        KeptCons(head, []);
        NoPieces();
        assert [head] + [] == [head];
        assert parts == [head];
      } else {
        var rest := tail[1..];
        assert tail == [sep] + rest && head + tail == head + [sep] + rest;
        PartsSkipSeparator(rest, sep);
        SplitAt(head, sep, rest);
        KeptCons(head, Split(rest, sep));
        assert parts == [head] + parts[1..];
      }
    }
  }

  /** `path` with empty segments folded away. */
  function Normalised(path: string): string { Rooted(Parts(path, '/'), '/') }

  lemma PartsOfRooted(parts: seq<string>, sep: char)
    requires AreParts(parts, sep)
    ensures Parts(Rooted(parts, sep), sep) == parts
  {
    if parts == [] {
      PartsSkipSeparator("", sep);
      NoParts(sep);
      assert [sep] + "" == [sep];
    } else {
      PartsOfPrefixed(parts, sep);
    }
  }

  lemma {:induction false} PrefixedChars(parts: seq<string>, sep: char)
    ensures forall c :: c in Prefixed(parts, sep) ==> c == sep || exists i :: 0 <= i < |parts| && c in parts[i]
  {
    if parts != [] {
      PrefixedChars(parts[1..], sep);
      forall c | c in Prefixed(parts, sep) ensures c == sep || exists i :: 0 <= i < |parts| && c in parts[i] {
        if c != sep && c !in parts[0] {
          assert c in Prefixed(parts[1..], sep);
          var i :| 0 <= i < |parts[1..]| && c in parts[1..][i];
          assert c in parts[i + 1];
        }
      }
    }
  }

  /** A path that is valid stays valid when its empty segments go. */
  lemma NormalisedValid(path: string)
    requires ValidateLinuxPath(path) == None
    ensures ValidateLinuxPath(Normalised(path)) == None && Parts(Normalised(path), '/') == Parts(path, '/')
  {
    var parts := Parts(path, '/');
    PartsAre(path, '/');
    PartsOfRooted(parts, '/');
    PrefixedChars(parts, '/');
  }

  // ----- what the mapping promises -----

  lemma HostFacts()
    ensures |HOST| == 15 && |LEGACY| == 6
    ensures LowerAll(HOST) == HOST && LowerAll(LEGACY) == LEGACY
    ensures HOST[..6] != LEGACY
    ensures '/' !in HOST && '/' !in LEGACY && HOST[0] == BACKSLASH && HOST[1] == BACKSLASH
  {
    assert HOST[..6][5] == '.' && LEGACY[5] == '$';
  }

  /** However the host is spelled (either name, any case), a path behind it is stripped alike. */
  lemma StripHost(host: string, rest: string)
    requires LowerAll(host) == HOST || LowerAll(host) == LEGACY
    ensures StripWslUnc(host + [BACKSLASH] + rest) == Some(rest)
  {
    HostFacts();
    var all := host + [BACKSLASH] + rest;
    assert |host| == |LowerAll(host)|;
    assert all[..|host|] == host && all[|host|..] == [BACKSLASH] + rest && all[|host| + 1..] == rest;
    if LowerAll(host) == LEGACY && StripPrefix(all, HOST).Some? {
      assert false;
    }
  }

  lemma BackslashedIsh(s: string)
    requires '/' !in s
    ensures Backslashed(s) == s
  {
  }

  /** From a host, a distro and a tail to the Linux path. */
  lemma FromUnc(host: string, distro: string, tail: string)
    requires LowerAll(host) == HOST || LowerAll(host) == LEGACY
    requires '/' !in host && '/' !in tail
    requires ValidateDistro(distro) == None
    ensures FromWindowsPathOf(host + [BACKSLASH] + distro + [BACKSLASH] + tail)
         == Checked(Linux(Some(distro), Rooted(Parts(tail, BACKSLASH), '/')))
  {
    hide StripWslUnc, Checked, Parts;
    var rest := distro + [BACKSLASH] + tail;
    var all := host + [BACKSLASH] + distro + [BACKSLASH] + tail;
    assert all == host + [BACKSLASH] + rest;
    BackslashedIsh(all);
    StripHost(host, rest);
    SplitOnceAt(distro, BACKSLASH, tail);
    var parts := Parts(tail, BACKSLASH);
    assert "" + Prefixed(parts, '/') == Prefixed(parts, '/');
    if parts != [] {
      assert Prefixed(parts, '/') != "";
    }
  }

  /** Components taken at one separator, joined with the other, are the components there. */
  lemma ForOther(path: string, parts: seq<string>, tail: string)
    requires parts == Parts(path, '/') && BACKSLASH !in path
    requires Rooted(parts, BACKSLASH) == [BACKSLASH] + tail
    ensures '/' !in tail && Parts(tail, BACKSLASH) == parts
  {
    hide Parts;
    PartsAre(path, '/');
    assert AreParts(parts, BACKSLASH);
    PartsOfRooted(parts, BACKSLASH);
    PartsSkipSeparator(tail, BACKSLASH);
    PrefixedChars(parts, BACKSLASH);
    assert forall c :: c in tail ==> c in Rooted(parts, BACKSLASH);
  }

  /** For every distro and path the forward direction accepts, the way back gives the distro
      and the path without its empty segments. */
  lemma UncRoundTrip(distro: string, path: string)
    requires ToUncOf(distro, path).Ok?
    ensures FromWindowsPathOf(ToUncOf(distro, path).value) == Ok(Linux(Some(distro), Normalised(path)))
  {
    var parts := Parts(path, '/');
    PartsAre(path, '/');
    var rooted := Rooted(parts, BACKSLASH);
    var tail := rooted[1..];
    assert rooted == [BACKSLASH] + tail;
    ForOther(path, parts, tail);
    HostFacts();
    FromUnc(HOST, distro, tail);
    NormalisedValid(path);
    Assoc(HOST + [BACKSLASH] + distro, [BACKSLASH], tail);
  }

  lemma {:induction false} SplitOnceTail(s: string, sep: char)
    ensures SplitOnce(s, sep).Some? ==> forall c :: c in SplitOnce(s, sep).value.1 ==> c in s
  {
    if s != "" && s[0] != sep {
      SplitOnceTail(s[1..], sep);
      assert forall c :: c in s[1..] ==> c in s;
    }
  }

  /** What `join_linux` makes has no empty segment. */
  lemma JoinedAtRoot(tail: string)
    requires '/' !in tail
    ensures Normalised(JoinLinux("", tail)) == JoinLinux("", tail)
  {
    hide Parts;
    var parts := Parts(tail, BACKSLASH);
    PartsAre(tail, BACKSLASH);
    assert AreParts(parts, '/');
    assert "" + Prefixed(parts, '/') == Prefixed(parts, '/');
    PartsOfRooted(parts, '/');
  }

  lemma PrefixedTwo(first: string, second: string, parts: seq<string>, sep: char)
    ensures Prefixed([first, second] + parts, sep) == [sep] + first + ([sep] + second) + Prefixed(parts, sep)
  {
    var all := [first, second] + parts;
    assert all[1..] == [second] + parts && all[1..][1..] == parts;
    Assoc([sep] + first, [sep] + second, Prefixed(parts, sep));
  }

  lemma JoinedOnDrive(letter: char, tail: string)
    requires '/' !in tail && letter != '/'
    ensures Normalised(JoinLinux("/mnt/" + [letter], tail)) == JoinLinux("/mnt/" + [letter], tail)
  {
    hide Parts;
    var parts := Parts(tail, BACKSLASH);
    PartsAre(tail, BACKSLASH);
    var all := ["mnt", [letter]] + parts;
    assert AreParts(all, '/');
    PrefixedTwo("mnt", [letter], parts, '/');
    assert ['/'] + "mnt" + (['/'] + [letter]) == "/mnt/" + [letter];
    PartsOfRooted(all, '/');
  }

  /** Everything the way back returns is a valid path without empty segments, under a distro
      the forward direction accepts; a WSL path maps back to itself. */
  lemma BackIsFixed(path: string)
    requires FromWindowsPathOf(path).Ok?
    ensures var l := FromWindowsPathOf(path).value;
            && ValidateLinuxPath(l.path) == None && Normalised(l.path) == l.path
            && (l.distro.Some? ==>
                  && ToUncOf(l.distro.value, l.path).Ok?
                  && FromWindowsPathOf(ToUncOf(l.distro.value, l.path).value) == Ok(l))
  {
    var normalized := Backslashed(path);
    var l := FromWindowsPathOf(path).value;
    if StripWslUnc(normalized).Some? {
      var rest := StripWslUnc(normalized).value;
      assert '/' !in rest;
      var tail := if SplitOnce(rest, BACKSLASH).None? then "" else SplitOnce(rest, BACKSLASH).value.1;
      SplitOnceTail(rest, BACKSLASH);
      JoinedAtRoot(tail);
      UncRoundTrip(l.distro.value, l.path);
    } else {
      var (letter, tail) := StripDrive(normalized).value;
      assert '/' !in tail;
      JoinedOnDrive(letter, tail);
    }
  }

  lemma UncAsParts(distro: string, parts: seq<string>)
    ensures HOST + [BACKSLASH] + distro + Prefixed(parts, BACKSLASH)
         == [BACKSLASH] + Prefixed(["wsl.localhost", distro] + parts, BACKSLASH)
  {
    PrefixedTwo("wsl.localhost", distro, parts, BACKSLASH);
    var tail := [BACKSLASH] + distro;
    assert HOST == [BACKSLASH] + ([BACKSLASH] + "wsl.localhost");
    assert HOST + [BACKSLASH] + distro == HOST + tail;
    Assoc([BACKSLASH], [BACKSLASH] + "wsl.localhost", tail);
    Assoc([BACKSLASH], [BACKSLASH] + "wsl.localhost" + tail, Prefixed(parts, BACKSLASH));
  }

  lemma {:induction false} NoDots(parts: seq<string>)
    requires FirstProblem(parts) == None
    ensures "." !in parts && ".." !in parts
  {
    if parts != [] {
      NoDots(parts[1..]);
      assert parts == [parts[0]] + parts[1..];
    }
  }

  lemma {:induction false} SplitSnoc(s: string, sep: char)
    ensures Split(s + [sep], sep) == Split(s, sep) + [""]
  {
    var all := s + [sep];
    if s == "" {
      assert all[1..] == "";
    } else {
      SplitSnoc(s[1..], sep);
      assert all[1..] == s[1..] + [sep];
    }
  }

  lemma {:induction false} KeptSnoc(pieces: seq<string>)
    ensures Kept(pieces + [""]) == Kept(pieces)
  {
    if pieces == [] {
      assert (pieces + [""])[1..] == [];
    } else {
      KeptSnoc(pieces[1..]);
      assert (pieces + [""])[1..] == pieces[1..] + [""];
    }
  }

  lemma TrailingSeparator(s: string, sep: char)
    ensures Parts(s + [sep], sep) == Parts(s, sep)
  {
    SplitSnoc(s, sep);
    KeptSnoc(Split(s, sep));
  }

  /** The assembled name has exactly the components host, distro and those of the path, at
      either Windows separator: nothing in a distro or a path adds, removes or steps out of one. */
  lemma UncComponents(distro: string, path: string)
    requires ToUncOf(distro, path).Ok?
    ensures var unc := ToUncOf(distro, path).value;
            && '/' !in unc
            && Parts(unc, BACKSLASH) == ["wsl.localhost", distro] + Parts(path, '/')
            && "." !in Parts(unc, BACKSLASH) && ".." !in Parts(unc, BACKSLASH)
  {
    hide Parts;
    var parts := Parts(path, '/');
    PartsAre(path, '/');
    var all := ["wsl.localhost", distro] + parts;
    assert AreParts(all, BACKSLASH);
    var unc := ToUncOf(distro, path).value;
    var plain := Prefixed(all, BACKSLASH);
    UncAsParts(distro, parts);
    PartsOfPrefixed(all, BACKSLASH);
    PartsSkipSeparator(plain, BACKSLASH);
    PrefixedChars(all, BACKSLASH);
    if parts == [] {
      TrailingSeparator([BACKSLASH] + plain, BACKSLASH);
      assert unc == ([BACKSLASH] + plain) + [BACKSLASH];
    } else {
      assert unc == [BACKSLASH] + plain;
    }
    NoDots(parts);
  }

  // ----- exactly what is accepted, and as what -----

  /** A name that means the same to Linux and to Windows. */
  predicate PlainName(c: string) {
    && c != "" && c != "." && c != ".."
    && ':' !in c && '/' !in c && BACKSLASH !in c && '\0' !in c
    && c[|c| - 1] != '.' && c[|c| - 1] != ' '
  }

  predicate PlainNames(names: seq<string>) { forall i :: 0 <= i < |names| ==> PlainName(names[i]) }

  /** A distro is accepted exactly when it is such a name. */
  lemma DistroExactly(distro: string)
    ensures ValidateDistro(distro).None? <==> PlainName(distro)
  {
  }

  lemma {:induction false} FirstProblemExactly(components: seq<string>)
    ensures FirstProblem(components).None? <==> forall i :: 0 <= i < |components| ==> ComponentProblem(components[i]).None?
  {
    if components != [] {
      FirstProblemExactly(components[1..]);
      if forall i :: 0 <= i < |components| ==> ComponentProblem(components[i]).None? {
        forall i | 0 <= i < |components[1..]| ensures ComponentProblem(components[1..][i]).None? {
          assert components[1..][i] == components[i + 1];
        }
      } else if ComponentProblem(components[0]).None? {
        var i :| 0 <= i < |components| && ComponentProblem(components[i]).Some?;
        assert components[1..][i - 1] == components[i];
      }
    }
  }

  lemma {:induction false} KeptExactly(pieces: seq<string>)
    ensures forall part :: part in Kept(pieces) <==> part in pieces && part != ""
  {
    if pieces != [] {
      KeptExactly(pieces[1..]);
      assert pieces == [pieces[0]] + pieces[1..];
    }
  }

  lemma {:induction false} JoinedChars(pieces: seq<string>, sep: char)
    requires pieces != []
    ensures forall c :: c in Join(pieces, sep) ==> c == sep || exists i :: 0 <= i < |pieces| && c in pieces[i]
    ensures forall i, c :: 0 <= i < |pieces| && c in pieces[i] ==> c in Join(pieces, sep)
  {
    if |pieces| > 1 {
      var rest := pieces[1..];
      JoinedChars(rest, sep);
      forall c | c in Join(pieces, sep) ensures c == sep || exists i :: 0 <= i < |pieces| && c in pieces[i] {
        if c != sep && c !in pieces[0] {
          var i :| 0 <= i < |rest| && c in rest[i];
          assert c in pieces[i + 1];
        }
      }
      forall i, c | 0 <= i < |pieces| && c in pieces[i] ensures c in Join(pieces, sep) {
        if i > 0 {
          assert c in rest[i - 1];
        }
      }
    }
  }

  /** An absolute path: slashes, any number of them together, and plain names in between. */
  predicate Absolute(pieces: seq<string>) {
    |pieces| >= 2 && pieces[0] == "" && forall i :: 0 <= i < |pieces| ==> pieces[i] == "" || PlainName(pieces[i])
  }

  lemma PlainMeans(c: string)
    ensures PlainName(c) <==> c != "" && ComponentProblem(c).None? && '/' !in c && BACKSLASH !in c && '\0' !in c
  {
  }

  lemma JoinStart(pieces: seq<string>)
    requires pieces != [] && forall i :: 0 <= i < |pieces| ==> '/' !in pieces[i]
    ensures var path := Join(pieces, '/'); path != "" && path[0] == '/' <==> |pieces| >= 2 && pieces[0] == ""
  {
  }

  lemma PiecesValid(pieces: seq<string>)
    requires pieces != [] && forall i :: 0 <= i < |pieces| ==> '/' !in pieces[i]
    ensures ValidateLinuxPath(Join(pieces, '/')).None? <==> Absolute(pieces)
  {
    hide Join, ComponentProblem;
    var path := Join(pieces, '/');
    SplitJoin(pieces, '/');
    JoinedChars(pieces, '/');
    FirstProblemExactly(Parts(path, '/'));
    KeptExactly(pieces);
    var parts := Kept(pieces);
    JoinStart(pieces);
    forall i | 0 <= i < |pieces| ensures pieces[i] != "" ==> pieces[i] in parts {}
    forall i | 0 <= i < |pieces| ensures PlainName(pieces[i]) <==>
      pieces[i] != "" && ComponentProblem(pieces[i]).None? && '/' !in pieces[i] && BACKSLASH !in pieces[i] && '\0' !in pieces[i]
    {
      PlainMeans(pieces[i]);
    }
    if Absolute(pieces) {
      forall i | 0 <= i < |parts| ensures ComponentProblem(parts[i]).None? {
        assert parts[i] in parts;
      }
    }
    if ValidateLinuxPath(path).None? {
      forall i | 0 <= i < |pieces| ensures pieces[i] == "" || PlainName(pieces[i]) {
        if pieces[i] != "" {
          var k :| 0 <= k < |parts| && parts[k] == pieces[i];
        }
      }
    }
  }

  lemma AbsolutePieces(pieces: seq<string>)
    requires Absolute(pieces)
    ensures pieces != [] && forall i :: 0 <= i < |pieces| ==> '/' !in pieces[i]
  {
  }

  /** The Linux paths accepted are exactly those. */
  lemma PathExactly(path: string)
    ensures ValidateLinuxPath(path).None? <==> exists pieces :: Absolute(pieces) && path == Join(pieces, '/')
  {
    hide ValidateLinuxPath, Join, Split;
    var found := Split(path, '/');
    JoinSplit(path, '/');
    PiecesValid(found);
    if pieces :| Absolute(pieces) && path == Join(pieces, '/') {
      AbsolutePieces(pieces);
      PiecesValid(pieces);
    }
  }

  lemma {:induction false} PrefixedHolds(parts: seq<string>, sep: char)
    ensures forall i, c :: 0 <= i < |parts| && c in parts[i] ==> c in Prefixed(parts, sep)
  {
    if parts != [] {
      PrefixedHolds(parts[1..], sep);
      forall i, c | 0 <= i < |parts| && c in parts[i] ensures c in Prefixed(parts, sep) {
        if i > 0 {
          assert parts[1..][i - 1] == parts[i];
        }
      }
    }
  }

  lemma RootedStart(parts: seq<string>)
    ensures Rooted(parts, '/') != "" && Rooted(parts, '/')[0] == '/'
  {
  }

  /** A path put together from components is valid exactly when they are plain names. */
  lemma RootedExactly(parts: seq<string>)
    requires AreParts(parts, '/') && AreParts(parts, BACKSLASH)
    ensures ValidateLinuxPath(Rooted(parts, '/')).None? <==> PlainNames(parts)
  {
    hide ComponentProblem, Parts, Prefixed, PlainName;
    PartsOfRooted(parts, '/');
    FirstProblemExactly(parts);
    PrefixedChars(parts, '/');
    PrefixedHolds(parts, '/');
    RootedStart(parts);
    forall i | 0 <= i < |parts| ensures PlainName(parts[i]) <==> ComponentProblem(parts[i]).None? && '\0' !in parts[i] {
      PlainMeans(parts[i]);
    }
  }

  /** What the path of a WSL share says, over its characters: a host in either spelling and any
      case, the distro, and a tail with these names between its separators. */
  ghost predicate NamesShare(normalized: string, distro: string, names: seq<string>) {
    exists host, tail ::
      && (LowerAll(host) == HOST || LowerAll(host) == LEGACY)
      && (normalized == host + [BACKSLASH] + distro + [BACKSLASH] + tail
          || (tail == "" && normalized == host + [BACKSLASH] + distro))
      && Parts(tail, BACKSLASH) == names
  }

  /** And a drive: a letter of either case, a colon, a separator and a tail. */
  ghost predicate NamesDrive(normalized: string, lower: char, names: seq<string>) {
    exists letter, tail ::
      && ('a' <= letter <= 'z' || 'A' <= letter <= 'Z') && lower == Lower(letter)
      && normalized == [letter, ':', BACKSLASH] + tail && Parts(tail, BACKSLASH) == names
  }

  ghost predicate DenotesBy(path: string, l: Linux, names: seq<string>) {
    match l.distro
    case Some(distro) =>
      PlainName(distro) && l.path == Rooted(names, '/') && NamesShare(Backslashed(path), distro, names)
    case None =>
      exists lower :: l.path == Prefixed(["mnt", [lower]] + names, '/') && NamesDrive(Backslashed(path), lower, names)
  }

  /** What a Windows path denotes. */
  ghost predicate Denotes(path: string, l: Linux) {
    exists names :: PlainNames(names) && DenotesBy(path, l, names)
  }

  lemma StripPrefixExactly(path: string, prefix: string, rest: string)
    ensures StripPrefix(path, prefix) == Some(rest) <==>
              exists host :: LowerAll(host) == prefix && (path == host + [BACKSLASH] + rest || (rest == "" && path == host))
  {
    if StripPrefix(path, prefix) == Some(rest) {
      var host := path[..|prefix|];
      assert path == host + path[|prefix|..];
    }
    if host :| LowerAll(host) == prefix && (path == host + [BACKSLASH] + rest || (rest == "" && path == host)) {
      assert |host| == |prefix|;
      assert path[..|prefix|] == host;
      if path == host + [BACKSLASH] + rest {
        assert path[|prefix|..] == [BACKSLASH] + rest;
      }
    }
  }

  /** Only one of the two names can be meant. */
  lemma OneHost(path: string)
    ensures StripPrefix(path, HOST).Some? ==> StripPrefix(path, LEGACY).None?
  {
    HostFacts();
    if |path| >= 15 {
      assert path[..15][5] == path[5] && path[..6][5] == path[5];
      assert LowerAll(path[..15])[5] == Lower(path[5]) && LowerAll(path[..6])[5] == Lower(path[5]);
      assert HOST[5] == HOST[..6][5] == '.' && LEGACY[5] == '$';
    }
  }

  /** The share and its tail. */
  function ShareOf(rest: string): (string, string) {
    match SplitOnce(rest, BACKSLASH)
    case None => (rest, "")
    case Some((d, t)) => (d, t)
  }

  lemma ShareExactly(rest: string, distro: string, tail: string)
    requires BACKSLASH !in distro
    ensures ShareOf(rest) == (distro, tail) <==>
              rest == distro + [BACKSLASH] + tail || (tail == "" && rest == distro)
  {
    SplitOnceFound(rest, BACKSLASH);
    SplitOnceAt(distro, BACKSLASH, tail);
    SplitOnceNone(distro, BACKSLASH);
  }

  lemma StrippedExactly(normalized: string, rest: string)
    ensures StripWslUnc(normalized) == Some(rest) <==>
              exists host :: (LowerAll(host) == HOST || LowerAll(host) == LEGACY)
                             && (normalized == host + [BACKSLASH] + rest || (rest == "" && normalized == host))
  {
    hide StripPrefix, LowerAll;
    StripPrefixExactly(normalized, HOST, rest);
    StripPrefixExactly(normalized, LEGACY, rest);
    OneHost(normalized);
  }

  lemma ShareHere(normalized: string, host: string, rest: string, distro: string, tail: string)
    requires LowerAll(host) == HOST || LowerAll(host) == LEGACY
    requires normalized == host + [BACKSLASH] + rest || (rest == "" && normalized == host)
    requires rest == distro + [BACKSLASH] + tail || (tail == "" && rest == distro)
    requires distro != ""
    ensures NamesShare(normalized, distro, Parts(tail, BACKSLASH))
  {
    hide LowerAll, Parts;
    if rest == distro + [BACKSLASH] + tail {
      Assoc(host + [BACKSLASH], distro, [BACKSLASH] + tail);
      assert normalized == host + [BACKSLASH] + distro + [BACKSLASH] + tail;
    } else {
      assert normalized == host + [BACKSLASH] + distro;
    }
  }

  lemma ShareThere(normalized: string, distro: string, names: seq<string>) returns (rest: string, tail: string)
    requires NamesShare(normalized, distro, names)
    ensures StripWslUnc(normalized) == Some(rest) && Parts(tail, BACKSLASH) == names
    ensures rest == distro + [BACKSLASH] + tail || (tail == "" && rest == distro)
  {
    hide LowerAll, Parts, StripWslUnc;
    var host, t :| && (LowerAll(host) == HOST || LowerAll(host) == LEGACY)
                   && (normalized == host + [BACKSLASH] + distro + [BACKSLASH] + t
                       || (t == "" && normalized == host + [BACKSLASH] + distro))
                   && Parts(t, BACKSLASH) == names;
    tail := t;
    rest := if normalized == host + [BACKSLASH] + distro + [BACKSLASH] + t then distro + [BACKSLASH] + t else distro;
    assert normalized == host + [BACKSLASH] + rest;
    StrippedExactly(normalized, rest);
  }

  lemma ShareNamed(normalized: string, rest: string, distro: string, names: seq<string>)
    requires StripWslUnc(normalized) == Some(rest) && BACKSLASH !in distro && distro != ""
    ensures NamesShare(normalized, distro, names) <==> ShareOf(rest).0 == distro && Parts(ShareOf(rest).1, BACKSLASH) == names
  {
    hide StripWslUnc, LowerAll, Parts, ShareOf;
    StrippedExactly(normalized, rest);
    if ShareOf(rest).0 == distro && Parts(ShareOf(rest).1, BACKSLASH) == names {
      var tail := ShareOf(rest).1;
      ShareExactly(rest, distro, tail);
      var host :| (LowerAll(host) == HOST || LowerAll(host) == LEGACY)
                  && (normalized == host + [BACKSLASH] + rest || (rest == "" && normalized == host));
      ShareHere(normalized, host, rest, distro, tail);
    }
    if NamesShare(normalized, distro, names) {
      var r, t := ShareThere(normalized, distro, names);
      ShareExactly(r, distro, t);
    }
  }

  lemma DriveExactly(normalized: string, lower: char, tail: string)
    ensures StripDrive(normalized) == Some((lower, tail)) <==>
              exists letter :: ('a' <= letter <= 'z' || 'A' <= letter <= 'Z') && lower == Lower(letter)
                               && normalized == [letter, ':', BACKSLASH] + tail
  {
    if StripDrive(normalized) == Some((lower, tail)) {
      assert normalized == [normalized[0], ':', BACKSLASH] + normalized[3..];
    }
    if letter :| ('a' <= letter <= 'z' || 'A' <= letter <= 'Z') && lower == Lower(letter)
                 && normalized == [letter, ':', BACKSLASH] + tail {
      assert normalized[3..] == tail;
    }
  }

  lemma DriveNamed(normalized: string, lower: char, names: seq<string>)
    ensures NamesDrive(normalized, lower, names) <==>
              StripDrive(normalized).Some? && StripDrive(normalized).value.0 == lower
              && Parts(StripDrive(normalized).value.1, BACKSLASH) == names
  {
    hide StripDrive, Parts, Lower;
    if StripDrive(normalized).Some? {
      var (l, t) := StripDrive(normalized).value;
      DriveExactly(normalized, l, t);
    }
    if NamesDrive(normalized, lower, names) {
      var letter, tail :| && ('a' <= letter <= 'z' || 'A' <= letter <= 'Z') && lower == Lower(letter)
                          && normalized == [letter, ':', BACKSLASH] + tail && Parts(tail, BACKSLASH) == names;
      DriveExactly(normalized, lower, tail);
    }
  }

  /** A share is no drive. */
  lemma ShareIsNoDrive(normalized: string)
    requires StripWslUnc(normalized).Some?
    ensures StripDrive(normalized).None?
  {
    HostFacts();
    var rest := StripWslUnc(normalized).value;
    StrippedExactly(normalized, rest);
    var host :| (LowerAll(host) == HOST || LowerAll(host) == LEGACY)
                && (normalized == host + [BACKSLASH] + rest || (rest == "" && normalized == host));
    assert LowerAll(host)[0] == BACKSLASH == host[0] == normalized[0];
  }

  lemma BackslashedParts(tail: string)
    requires '/' !in tail
    ensures AreParts(Parts(tail, BACKSLASH), '/') && AreParts(Parts(tail, BACKSLASH), BACKSLASH)
  {
    PartsAre(tail, BACKSLASH);
  }

  lemma JoinedIsRooted(tail: string)
    ensures JoinLinux("", tail) == Rooted(Parts(tail, BACKSLASH), '/')
  {
    hide Parts;
    var parts := Parts(tail, BACKSLASH);
    assert "" + Prefixed(parts, '/') == Prefixed(parts, '/');
  }

  lemma SlashFree(normalized: string, rest: string)
    requires '/' !in normalized && StripWslUnc(normalized) == Some(rest)
    ensures '/' !in ShareOf(rest).0 && '/' !in ShareOf(rest).1
  {
    assert '/' !in rest;
    SplitOnceFound(rest, BACKSLASH);
  }

  lemma FromShareExactly(path: string, l: Linux)
    requires StripWslUnc(Backslashed(path)).Some?
    ensures FromWindowsPathOf(path) == Ok(l) <==> Denotes(path, l)
  {
    hide StripWslUnc, Parts, JoinLinux, Rooted, PlainName, ValidateDistro, ValidateLinuxPath, StripDrive, NamesShare, NamesDrive;
    var normalized := Backslashed(path);
    var rest := StripWslUnc(normalized).value;
    ShareIsNoDrive(normalized);
    var (distro, tail) := ShareOf(rest);
    var parts := Parts(tail, BACKSLASH);
    DistroExactly(distro);
    SlashFree(normalized, rest);
    JoinedIsRooted(tail);
    BackslashedParts(tail);
    RootedExactly(parts);
    PlainMeans("");
    if FromWindowsPathOf(path) == Ok(l) {
      PlainMeans(distro);
      ShareNamed(normalized, rest, distro, parts);
      assert DenotesBy(path, l, parts);
    }
    if names :| PlainNames(names) && DenotesBy(path, l, names) {
      if l.distro.None? {
        var lower :| l.path == Prefixed(["mnt", [lower]] + names, '/') && NamesDrive(normalized, lower, names);
        DriveNamed(normalized, lower, names);
      } else {
        PlainMeans(l.distro.value);
        ShareNamed(normalized, rest, l.distro.value, names);
      }
    }
  }

  lemma OnDrive(lower: char, tail: string)
    requires 'a' <= lower <= 'z' && '/' !in tail
    ensures var all := ["mnt", [lower]] + Parts(tail, BACKSLASH);
            && JoinLinux("/mnt/" + [lower], tail) == Prefixed(all, '/')
            && (ValidateLinuxPath(Prefixed(all, '/')).None? <==> PlainNames(Parts(tail, BACKSLASH)))
  {
    hide Parts, ValidateLinuxPath;
    var parts := Parts(tail, BACKSLASH);
    var all := ["mnt", [lower]] + parts;
    BackslashedParts(tail);
    PrefixedTwo("mnt", [lower], parts, '/');
    assert ['/'] + "mnt" + (['/'] + [lower]) == "/mnt/" + [lower];
    assert AreParts(all, '/') && AreParts(all, BACKSLASH);
    RootedExactly(all);
    assert PlainName("mnt") && PlainName([lower]);
    assert all[0] == "mnt" && all[1] == [lower];
    if PlainNames(parts) {
      forall i | 0 <= i < |all| ensures PlainName(all[i]) {
        assert i >= 2 ==> all[i] == parts[i - 2];
      }
    }
    if PlainNames(all) {
      forall i | 0 <= i < |parts| ensures PlainName(parts[i]) {
        assert parts[i] == all[i + 2];
      }
    }
  }

  lemma FromDriveExactly(path: string, l: Linux)
    requires StripWslUnc(Backslashed(path)).None?
    ensures FromWindowsPathOf(path) == Ok(l) <==> Denotes(path, l)
  {
    hide StripWslUnc, Parts, JoinLinux, Rooted, Prefixed, PlainName, ValidateLinuxPath, NamesShare, NamesDrive;
    var normalized := Backslashed(path);
    if StripDrive(normalized).Some? {
      var (lower, tail) := StripDrive(normalized).value;
      assert '/' !in tail;
      OnDrive(lower, tail);
      if FromWindowsPathOf(path) == Ok(l) {
        DriveNamed(normalized, lower, Parts(tail, BACKSLASH));
        assert DenotesBy(path, l, Parts(tail, BACKSLASH));
      }
    }
    if names :| PlainNames(names) && DenotesBy(path, l, names) {
      if l.distro.None? {
        var lower :| l.path == Prefixed(["mnt", [lower]] + names, '/') && NamesDrive(normalized, lower, names);
        DriveNamed(normalized, lower, names);
      } else {
        var r, t := ShareThere(normalized, l.distro.value, names);
      }
    }
  }

  /** What the way back gives, exactly: a Windows path is accepted if and only if it names a WSL
      share and plain names under it, or a drive and plain names on it; and then the result is
      the distro with the path of these names, or `/mnt`, the letter in lower case and these
      names. */
  lemma FromExactly(path: string, l: Linux)
    ensures FromWindowsPathOf(path) == Ok(l) <==> Denotes(path, l)
  {
    hide FromWindowsPathOf, Denotes;
    if StripWslUnc(Backslashed(path)).Some? {
      FromShareExactly(path, l);
    } else {
      FromDriveExactly(path, l);
    }
  }

  lemma ShareStart(normalized: string)
    requires StripWslUnc(normalized).Some?
    ensures [BACKSLASH, BACKSLASH] <= normalized
  {
    HostFacts();
    StrippedExactly(normalized, StripWslUnc(normalized).value);
    var host :| (LowerAll(host) == HOST || LowerAll(host) == LEGACY) && host <= normalized;
    assert LowerAll(host)[0] == Lower(host[0]) && LowerAll(host)[1] == Lower(host[1]);
    assert LEGACY[0] == BACKSLASH == LEGACY[1];
  }

  /** Which kind of path is turned down as such: a share of no distro, another host's share or
      device, and what is neither a share nor a drive. */
  lemma KindsRefused(path: string)
    ensures var n, r := Backslashed(path), FromWindowsPathOf(path);
            && (r == Err(NoDistro) <==> StripWslUnc(n).Some? && ShareOf(StripWslUnc(n).value).0 == "")
            && (r == Err(ForeignUnc) <==> StripWslUnc(n).None? && [BACKSLASH, BACKSLASH] <= n)
            && (r == Err(NotAWindowsPath) <==> !([BACKSLASH, BACKSLASH] <= n) && StripDrive(n).None?)
  {
    hide Parts, JoinLinux, LowerAll, StripPrefix, StripDrive;
    var n := Backslashed(path);
    if StripWslUnc(n).Some? {
      ShareStart(n);
    }
  }
}
