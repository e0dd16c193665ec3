/** Toolchain installation and removal of logic/env.go: the archive name taken from the download
    URL, the version read from it by the package-name pattern, the guards before an install, and
    the guard before a removal. Downloading, hashing and unpacking are inputs. */
module Toolchains {
  import opened Results
  import opened Strings
  import opened Model
  import Tasks

  /** `parseUrlFilename`: the last '/'-separated part of the first '?'-separated part. */
  function ParseUrlFilename(url: string): (name: string)
    ensures '/' !in name && '?' !in name
  {
    var path := Split(url, '?')[0];
    var parts := Split(path, '/');
    SplitLastPart(path, '/');
    assert '?' !in path;
    Last(parts)
  }

  /** The archive name is what follows the last '/' of the part of the URL before its first '?'. */
  lemma ParseUrlFilenameSpec(url: string)
    ensures var q := IndexOf(url, '?');
      var path := if q < 0 then url else url[..q];
      ParseUrlFilename(url) == AfterLast(path, '/')
  {
    var path := Split(url, '?')[0];
    SplitFirstPart(url, '?');
    SplitLastPart(path, '/');
  }

  /** A query string does not change the archive name. */
  lemma ParseUrlFilenameQuery(path: string, query: string)
    requires '?' !in path
    ensures ParseUrlFilename(path + "?" + query) == AfterLast(path, '/')
    ensures ParseUrlFilename(path) == AfterLast(path, '/')
  {
    var url := path + "?" + query;
    ParseUrlFilenameSpec(url);
    ParseUrlFilenameSpec(path);
    assert url[..|path|] == path;
    assert IndexOf(url, '?') == |path| by {
      assert url[|path|] == '?';
    }
  }

  /** The archive name of a download URL: the text after the last '/' of the part before the
      query string. */
  lemma ParseUrlFilenameOf(dir: string, name: string, query: string)
    requires '/' !in name && '?' !in dir && '?' !in name
    ensures ParseUrlFilename(dir + "/" + name + "?" + query) == name
    ensures ParseUrlFilename(dir + "/" + name) == name
  {
    var path := dir + "/" + name;
    assert '?' !in path;
    ParseUrlFilenameQuery(path, query);
    AfterLastSeparator(dir, name, '/');
  }

  /** The characters of the pattern's class `[\.[0-9]`: '.', '[' and the digits. */
  predicate ClassChar(c: char)
  {
    c == '.' || c == '[' || IsDigit(c)
  }

  /** Length of the run of digits starting at `i`. */
  function DigitRun(f: string, i: nat): (n: nat)
    requires i <= |f|
    ensures i + n <= |f|
    ensures forall k {:trigger IsDigit(f[k])} :: i <= k < i + n ==> IsDigit(f[k])
    ensures i + n == |f| || !IsDigit(f[i + n])
    decreases |f| - i
  {
    if i == |f| || !IsDigit(f[i]) then 0 else 1 + DigitRun(f, i + 1)
  }

  /** Length of the run of class characters starting at `i`. */
  function ClassRun(f: string, i: nat): (n: nat)
    requires i <= |f|
    ensures i + n <= |f|
    ensures forall k {:trigger ClassChar(f[k])} :: i <= k < i + n ==> ClassChar(f[k])
    ensures i + n == |f| || !ClassChar(f[i + n])
    decreases |f| - i
  {
    if i == |f| || !ClassChar(f[i]) then 0 else 1 + ClassRun(f, i + 1)
  }

  /** `lit` occurs in `f` at position `i`. */
  predicate LitAt(f: string, i: nat, lit: string)
  {
    i + |lit| <= |f| && forall k {:trigger lit[k]} :: 0 <= k < |lit| ==> f[i + k] == lit[k]
  }

  /** The pattern's `.` matches the character at `i`: anything but a newline. */
  predicate AnyAt(f: string, i: nat)
  {
    i < |f| && f[i] != '\n'
  }

  /** Length of what follows the group: any character, `<os>-<arch>`, any character, `tar`,
      any character, `gz`. */
  function TailLen(os: string, arch: string): nat
  {
    |os| + |arch| + 9
  }

  /** The part of the pattern after the group matches from `g` on. */
  predicate TailMatches(f: string, g: nat, os: string, arch: string)
  {
    var a := g + 1 + |os|;
    var b := a + 1 + |arch|;
    && AnyAt(f, g)
    && LitAt(f, g + 1, os)
    && LitAt(f, a, "-")
    && LitAt(f, a + 1, arch)
    && AnyAt(f, b)
    && LitAt(f, b + 1, "tar")
    && AnyAt(f, b + 4)
    && LitAt(f, b + 5, "gz")
  }

  /** The whole pattern `go([0-9]*\.[0-9]*[\.[0-9]*]?).<os>-<arch>.tar.gz` matches at `s` with the
      group `f[s + 2..g]`: "go", digits, '.', characters of the class, an optional ']' as the
      group's last character, then the tail. The group's '.' is the first non-digit after "go",
      as no digit run can be followed by a '.' anywhere else. */
  predicate PatternAt(f: string, s: nat, g: nat, os: string, arch: string)
  {
    && s + 2 <= g <= |f|
    && LitAt(f, s, "go")
    && (var i := s + 2 + DigitRun(f, s + 2);
        && i < g && f[i] == '.'
        && forall k {:trigger ClassChar(f[k])} :: i < k < g ==> ClassChar(f[k]) || (k == g - 1 && f[k] == ']'))
    && TailMatches(f, g, os, arch)
  }

  /** The group's tail can follow at `e`, taking a ']' at `e` into the group first. */
  predicate EndsAt(f: string, e: nat, os: string, arch: string)
  {
    (e < |f| && f[e] == ']' && TailMatches(f, e + 1, os, arch)) || TailMatches(f, e, os, arch)
  }

  /** The group's possible ends, tried from `e` down to `q`, as the backtracking matcher tries
      them; at each end the optional ']' is tried before its absence. The result is where the
      tail starts. */
  function TryEnds(f: string, q: nat, e: int, os: string, arch: string): Option<nat>
    requires e <= |f|
    decreases e - q + 1
  {
    if e < q then None
    else if e < |f| && f[e] == ']' && TailMatches(f, e + 1, os, arch) then Some(e + 1)
    else if TailMatches(f, e, os, arch) then Some(e)
    else TryEnds(f, q, e - 1, os, arch)
  }

  /** The end found admits the tail, and lies between `q` and `e`, or one past a ']' there. */
  lemma {:induction false} TryEndsSound(f: string, q: nat, e: int, os: string, arch: string)
    requires e <= |f|
    ensures var g := TryEnds(f, q, e, os, arch);
      g.Some? ==> (TailMatches(f, g.value, os, arch)
                   && (q <= g.value <= e || (q < g.value <= e + 1 && f[g.value - 1] == ']')))
    decreases e - q + 1
  {
    if q <= e && !(e < |f| && f[e] == ']' && TailMatches(f, e + 1, os, arch)) && !TailMatches(f, e, os, arch) {
      TryEndsSound(f, q, e - 1, os, arch);
    }
  }

  /** Some end between `q` and `e` admits the tail, so the ends tried find one. */
  lemma {:induction false} TryEndsComplete(f: string, q: nat, e: int, g0: nat, os: string, arch: string)
    requires e <= |f| && q <= g0 <= e
    requires EndsAt(f, g0, os, arch)
    ensures TryEnds(f, q, e, os, arch).Some?
    decreases e - q + 1
  {
    if g0 < e && !EndsAt(f, e, os, arch) {
      TryEndsComplete(f, q, e - 1, g0, os, arch);
    }
  }

  /** The match attempt at position `s`: "go", the longest run of digits, '.', then the
      group's ends from the longest run of class characters down. */
  function MatchAt(f: string, s: nat, os: string, arch: string): Option<nat>
  {
    if s + 2 <= |f| && LitAt(f, s, "go") then
      var i := s + 2 + DigitRun(f, s + 2);
      if i < |f| && f[i] == '.' then
        var q := i + 1;
        TryEnds(f, q, q + ClassRun(f, q), os, arch)
      else None
    else None
  }

  /** A successful attempt at `s` is a match of the pattern there. */
  lemma MatchAtSound(f: string, s: nat, os: string, arch: string)
    ensures MatchAt(f, s, os, arch).Some? ==> PatternAt(f, s, MatchAt(f, s, os, arch).value, os, arch)
  {
    if s + 2 <= |f| && LitAt(f, s, "go") {
      var i := s + 2 + DigitRun(f, s + 2);
      if i < |f| && f[i] == '.' {
        var q := i + 1;
        var m := q + ClassRun(f, q);
        TryEndsSound(f, q, m, os, arch);
        var g := TryEnds(f, q, m, os, arch);
        assert MatchAt(f, s, os, arch) == g;
        if g.Some? {
          PatternFromEnd(f, s, q, m, g.value, os, arch);
        }
      }
    }
  }

  /** Past "go", the digits and the '.', an end within the class run, or one past a ']' just
      after it, that admits the tail is a match of the pattern. */
  lemma PatternFromEnd(f: string, s: nat, q: nat, m: nat, g: nat, os: string, arch: string)
    requires s + 2 <= |f| && LitAt(f, s, "go")
    requires q == s + 2 + DigitRun(f, s + 2) + 1 && q - 1 < |f| && f[q - 1] == '.'
    requires m == q + ClassRun(f, q)
    requires TailMatches(f, g, os, arch)
    requires q <= g <= m || (q < g <= m + 1 && f[g - 1] == ']')
    ensures PatternAt(f, s, g, os, arch)
  {
    assert g <= |f| by {
      assert AnyAt(f, g);
    }
    forall k {:trigger ClassChar(f[k])} | q - 1 < k < g
      ensures ClassChar(f[k]) || (k == g - 1 && f[k] == ']')
    {
      if k >= m {
        assert k == g - 1;
      }
    }
  }

  /** Whenever the pattern matches at `s`, the attempt at `s` succeeds. */
  lemma MatchAtComplete(f: string, s: nat, g: nat, os: string, arch: string)
    requires PatternAt(f, s, g, os, arch)
    ensures MatchAt(f, s, os, arch).Some?
  {
    var i := s + 2 + DigitRun(f, s + 2);
    var q := i + 1;
    var m := q + ClassRun(f, q);
    // Where the class run of the match stops: before its ']' when it has one.
    var g0 := if f[g - 1] == ']' && g - 1 > i then g - 1 else g;
    assert EndsAt(f, g0, os, arch) by {
      assert TailMatches(f, g, os, arch);
    }
    assert forall k {:trigger ClassChar(f[k])} :: q <= k < g0 ==> ClassChar(f[k]);
    ClassRunCovers(f, q, g0);
    TriesFrom(f, s, q, m, g0, os, arch);
  }

  /** The attempt at `s` succeeds when the tail can follow some end `g0` within the class run
      past "go", the digits and the '.'. */
  lemma TriesFrom(f: string, s: nat, q: nat, m: nat, g0: nat, os: string, arch: string)
    requires s + 2 <= |f| && LitAt(f, s, "go")
    requires q == s + 2 + DigitRun(f, s + 2) + 1 && q - 1 < |f| && f[q - 1] == '.'
    requires m == q + ClassRun(f, q) && q <= g0 <= m
    requires EndsAt(f, g0, os, arch)
    ensures MatchAt(f, s, os, arch).Some?
  {
    MatchAtTries(f, s, q, m, os, arch);
    TryEndsComplete(f, q, m, g0, os, arch);
  }

  /** Past "go", the digits and the '.', the attempt at `s` is the search over the ends of the
      class run from `q` to `m`. */
  lemma MatchAtTries(f: string, s: nat, q: nat, m: nat, os: string, arch: string)
    requires s + 2 <= |f| && LitAt(f, s, "go")
    requires q == s + 2 + DigitRun(f, s + 2) + 1 && q - 1 < |f| && f[q - 1] == '.'
    requires m == q + ClassRun(f, q)
    ensures m <= |f| && MatchAt(f, s, os, arch) == TryEnds(f, q, m, os, arch)
  {
  }

  /** A stretch of class characters from `q` lies within the run from `q`. */
  lemma ClassRunCovers(f: string, q: nat, e: nat)
    requires q <= e <= |f|
    requires forall k {:trigger ClassChar(f[k])} :: q <= k < e ==> ClassChar(f[k])
    ensures e <= q + ClassRun(f, q)
  {
  }

  /** Leftmost match: the first start position from `s` on at which the pattern matches, with
      where its group ends. */
  function FindVersion(f: string, s: nat, os: string, arch: string): Option<(nat, nat)>
    requires s <= |f|
    decreases |f| - s
  {
    match MatchAt(f, s, os, arch)
    case Some(g) => Some((s, g))
    case None => if s == |f| then None else FindVersion(f, s + 1, os, arch)
  }

  /** What is found is a match of the pattern, from `s` on. */
  lemma {:induction false} FindVersionSound(f: string, s: nat, os: string, arch: string)
    requires s <= |f|
    ensures var r := FindVersion(f, s, os, arch);
      r.Some? ==> s <= r.value.0 && PatternAt(f, r.value.0, r.value.1, os, arch)
    decreases |f| - s
  {
    MatchAtSound(f, s, os, arch);
    if MatchAt(f, s, os, arch).None? && s < |f| {
      FindVersionSound(f, s + 1, os, arch);
    }
  }

  /** A match at `t` is found, at `t` or further left. */
  lemma {:induction false} FindVersionLeftmost(f: string, s: nat, t: nat, g: nat, os: string, arch: string)
    requires s <= t && PatternAt(f, t, g, os, arch)
    ensures s <= |f|
    ensures FindVersion(f, s, os, arch).Some? && FindVersion(f, s, os, arch).value.0 <= t
    decreases t - s
  {
    if s == t {
      MatchAtComplete(f, t, g, os, arch);
    }
    match MatchAt(f, s, os, arch)
    case Some(e) =>
      assert FindVersion(f, s, os, arch) == Some((s, e));
    case None =>
      FindVersionLeftmost(f, s + 1, t, g, os, arch);
      assert FindVersion(f, s, os, arch) == FindVersion(f, s + 1, os, arch);
  }

  lemma GroupHasDot(f: string, s: nat, g: nat, os: string, arch: string)
    requires PatternAt(f, s, g, os, arch)
    ensures '.' in f[s + 2..g]
  {
    var i := s + 2 + DigitRun(f, s + 2);
    assert f[s + 2..g][i - s - 2] == '.';
  }

  /** `FindStringSubmatch` with the package-name pattern: the group of the leftmost match. */
  function MatchVersion(f: string, os: string, arch: string): (v: Option<string>)
    ensures v.Some? ==> '.' in v.value
  {
    match FindVersion(f, 0, os, arch)
    case Some((s, g)) =>
      FindVersionSound(f, 0, os, arch);
      GroupHasDot(f, s, g, os, arch);
      Some(f[s + 2..g])
    case None => None
  }

  /** The pattern matches nowhere left of `s`. */
  ghost predicate NoMatchBefore(f: string, s: nat, os: string, arch: string)
  {
    forall t: nat, g: nat :: t < s ==> !PatternAt(f, t, g, os, arch)
  }

  /** A group is found exactly when the pattern matches somewhere in the name. */
  lemma MatchVersionComplete(f: string, os: string, arch: string)
    ensures MatchVersion(f, os, arch).Some? <==> exists s: nat, g: nat :: PatternAt(f, s, g, os, arch)
  {
    FindVersionSound(f, 0, os, arch);
    if FindVersion(f, 0, os, arch).Some? {
      var r := FindVersion(f, 0, os, arch);
      assert PatternAt(f, r.value.0, r.value.1, os, arch);
    }
    forall s, g | PatternAt(f, s, g, os, arch)
      ensures FindVersion(f, 0, os, arch).Some?
    {
      FindVersionLeftmost(f, 0, s, g, os, arch);
    }
  }

  /** The group found is that of the leftmost match. */
  lemma MatchVersionLeftmost(f: string, os: string, arch: string)
    requires MatchVersion(f, os, arch).Some?
    ensures exists s: nat, g: nat ::
      && PatternAt(f, s, g, os, arch)
      && MatchVersion(f, os, arch).value == f[s + 2..g]
      && NoMatchBefore(f, s, os, arch)
  {
    var r := FindVersion(f, 0, os, arch);
    var s, g := r.value.0, r.value.1;
    FindVersionSound(f, 0, os, arch);
    MatchVersionOf(f, s, g, os, arch);
    forall t: nat, g': nat | t < s
      ensures !PatternAt(f, t, g', os, arch)
    {
      if PatternAt(f, t, g', os, arch) {
        FindVersionLeftmost(f, 0, t, g', os, arch);
      }
    }
    assert PatternAt(f, s, g, os, arch)
      && MatchVersion(f, os, arch).value == f[s + 2..g]
      && NoMatchBefore(f, s, os, arch);
  }

  /** `parseUrl`: the group captured by the package-name pattern for this host's OS and
      architecture in the archive name, or "couldn't match". */
  function ParseUrl(url: string, hostOs: string, hostArch: string): (r: Result<string, string>)
    ensures r.Err? <==> MatchVersion(ParseUrlFilename(url), hostOs, hostArch).None?
    ensures r.Err? ==> r.error == "couldn't match"
    ensures r.Ok? ==> r.value == MatchVersion(ParseUrlFilename(url), hostOs, hostArch).value && '.' in r.value
  {
    match MatchVersion(ParseUrlFilename(url), hostOs, hostArch)
    case Some(v) => Ok(v)
    case None => Err("couldn't match")
  }

  /** The official archive name for version `v` on a platform. */
  function ArchiveName(v: string, os: string, arch: string): string
  {
    "go" + v + "." + os + "-" + arch + ".tar.gz"
  }

  /** Where each part of the archive name for version `v` sits, stated on the characters of
      `f` alone. */
  predicate ArchiveLayout(f: string, v: string, os: string, arch: string)
  {
    var a := 3 + |v| + |os|;
    && |f| == a + |arch| + 8
    && LitAt(f, 0, "go")
    && LitAt(f, 2, v)
    && f[2 + |v|] == '.'
    && LitAt(f, 3 + |v|, os)
    && f[a] == '-'
    && LitAt(f, a + 1, arch)
    && LitAt(f, a + 1 + |arch|, ".tar.gz")
  }

  /** The official archive name has that layout. */
  lemma ArchiveNameChars(v: string, os: string, arch: string)
    ensures ArchiveLayout(ArchiveName(v, os, arch), v, os, arch)
  {
    var f := ArchiveName(v, os, arch);
    var a := 3 + |v| + |os|;
    assert f == "go" + v + "." + os + "-" + arch + ".tar.gz";
    forall k | 0 <= k < |v| ensures f[2 + k] == v[k] {
      assert f[2 + k] == ("go" + v)[2 + k];
    }
    forall k | 0 <= k < |os| ensures f[3 + |v| + k] == os[k] {
      assert f[3 + |v| + k] == ("go" + v + "." + os)[3 + |v| + k];
    }
    forall k | 0 <= k < |arch| ensures f[a + 1 + k] == arch[k] {
      assert f[a + 1 + k] == ("go" + v + "." + os + "-" + arch)[a + 1 + k];
    }
    forall k | 0 <= k < 7 ensures f[a + 1 + |arch| + k] == ".tar.gz"[k] {
    }
  }

  /** The characters of `digits + "." + rest`. */
  lemma VersionChars(digits: string, rest: string)
    ensures var v := digits + "." + rest;
      && |v| == |digits| + 1 + |rest|
      && (forall k :: 0 <= k < |digits| ==> v[k] == digits[k])
      && v[|digits|] == '.'
      && (forall k :: 0 <= k < |rest| ==> v[|digits| + 1 + k] == rest[k])
  {
  }

  /** A run of `n` digits followed by a non-digit is the digit run. */
  lemma {:induction false} DigitRunExact(f: string, i: nat, n: nat)
    requires i + n < |f|
    requires forall k {:trigger IsDigit(f[k])} :: i <= k < i + n ==> IsDigit(f[k])
    requires !IsDigit(f[i + n])
    ensures DigitRun(f, i) == n
    decreases n
  {
    if n > 0 {
      DigitRunExact(f, i + 1, n - 1);
    }
  }

  /** A run of `n` class characters followed by another character is the class run. */
  lemma {:induction false} ClassRunExact(f: string, i: nat, n: nat)
    requires i + n < |f|
    requires forall k {:trigger ClassChar(f[k])} :: i <= k < i + n ==> ClassChar(f[k])
    requires !ClassChar(f[i + n])
    ensures ClassRun(f, i) == n
    decreases n
  {
    if n > 0 {
      ClassRunExact(f, i + 1, n - 1);
    }
  }

  /** In that layout, with the version `digits + "." + rest`, the digit run after "go" ends at
      the version's first '.', and the class run after it ends just past the '.' before the OS
      name. */
  lemma LayoutRuns(f: string, v: string, digits: string, rest: string, os: string, arch: string)
    requires v == digits + "." + rest
    requires AllDigits(digits)
    requires forall k :: 0 <= k < |rest| ==> ClassChar(rest[k])
    requires os != "" && !ClassChar(os[0])
    requires ArchiveLayout(f, v, os, arch)
    ensures GroupRunsAt(f, 3 + |digits|, 3 + |v|)
  {
    VersionChars(digits, rest);
    LayoutDigitRun(f, v, digits, rest);
    LayoutClassRun(f, v, digits, rest, os);
  }

  /** The digit run after "go" stops at the version's first '.'. */
  lemma LayoutDigitRun(f: string, v: string, digits: string, rest: string)
    requires AllDigits(digits)
    requires |v| == |digits| + 1 + |rest| && v[|digits|] == '.'
    requires forall k :: 0 <= k < |digits| ==> v[k] == digits[k]
    requires 3 + |v| <= |f| && LitAt(f, 2, v)
    ensures DigitRun(f, 2) == |digits| && f[2 + |digits|] == '.'
  {
    forall k | 2 <= k < 2 + |digits| ensures IsDigit(f[k]) {
      assert f[2 + (k - 2)] == v[k - 2];
    }
    assert f[2 + |digits|] == v[|digits|];
    DigitRunExact(f, 2, |digits|);
  }

  /** The class run after the version's first '.' stops just past the '.' before the OS
      name. */
  lemma LayoutClassRun(f: string, v: string, digits: string, rest: string, os: string)
    requires forall k :: 0 <= k < |rest| ==> ClassChar(rest[k])
    requires os != "" && !ClassChar(os[0])
    requires |v| == |digits| + 1 + |rest|
    requires forall k :: 0 <= k < |rest| ==> v[|digits| + 1 + k] == rest[k]
    requires 3 + |v| + |os| <= |f| && LitAt(f, 2, v) && f[2 + |v|] == '.' && LitAt(f, 3 + |v|, os)
    ensures ClassRun(f, 3 + |digits|) == |rest| + 1
  {
    var q := 3 + |digits|;
    var m := 3 + |v|;
    forall k | q <= k < m ensures ClassChar(f[k]) {
      if k < m - 1 {
        assert f[2 + (k - 2)] == v[k - 2] == rest[k - q];
      }
    }
    assert f[m + 0] == os[0];
    ClassRunExact(f, q, m - q);
  }

  /** The characters of ".tar.gz" at `b`, as the tail reads them. */
  lemma TarGzAt(f: string, b: nat)
    requires LitAt(f, b, ".tar.gz")
    ensures AnyAt(f, b) && LitAt(f, b + 1, "tar") && AnyAt(f, b + 4) && LitAt(f, b + 5, "gz")
    ensures f[b + 2] == 'a' && f[b + 3] == 'r'
  {
    assert f[b + 0] == ".tar.gz"[0] && f[b + 4] == ".tar.gz"[4];
    assert f[b + 1] == ".tar.gz"[1] && f[b + 2] == ".tar.gz"[2] && f[b + 3] == ".tar.gz"[3];
    assert f[b + 5] == ".tar.gz"[5] && f[b + 6] == ".tar.gz"[6];
  }

  /** In that layout, the tail can start at the '.' before the OS name, and not at either
      position after it: there "tar" would have to start at the 'a' or the 'r' of ".tar.gz". */
  lemma LayoutTails(f: string, v: string, os: string, arch: string)
    requires ArchiveLayout(f, v, os, arch)
    ensures LastTailAt(f, 3 + |v|, os, arch)
  {
    var b := 4 + |v| + |os| + |arch|;
    TarGzAt(f, b);
    assert "tar"[0] == 't';
  }

  /** The name starts with "go", a digit run ending in the '.' before `q`, and a class run from
      `q` to `m`, whose last character is the '.' before the tail; the tail can start there and
      at neither position after it. */
  predicate ShapedAt(f: string, q: nat, m: nat, os: string, arch: string)
  {
    GroupRunsAt(f, q, m) && LastTailAt(f, m, os, arch)
  }

  /** "go", a digit run ending in the '.' before `q`, and a class run from `q` to `m`. */
  predicate GroupRunsAt(f: string, q: nat, m: nat)
  {
    && 3 <= q < m <= |f| && LitAt(f, 0, "go")
    && DigitRun(f, 2) == q - 3 && f[q - 1] == '.' && ClassRun(f, q) == m - q
  }

  /** The tail can start at the '.' before `m`, and at neither position after it. */
  predicate LastTailAt(f: string, m: nat, os: string, arch: string)
  {
    && 1 <= m <= |f| && f[m - 1] == '.'
    && !TailMatches(f, m + 1, os, arch) && !TailMatches(f, m, os, arch) && TailMatches(f, m - 1, os, arch)
  }

  /** The attempt at the start of a name of that shape ends the group at `m - 1`. */
  lemma MatchAtLastEnd(f: string, q: nat, m: nat, os: string, arch: string)
    requires ShapedAt(f, q, m, os, arch)
    ensures MatchAt(f, 0, os, arch) == Some(m - 1)
  {
    assert TryEnds(f, q, m - 1, os, arch) == Some(m - 1);
    assert TryEnds(f, q, m, os, arch) == Some(m - 1);
  }

  /** So the leftmost match in a name of that shape is at its start. */
  lemma FindShaped(f: string, q: nat, m: nat, os: string, arch: string)
    requires ShapedAt(f, q, m, os, arch)
    ensures FindVersion(f, 0, os, arch) == Some((0, m - 1))
  {
    MatchAtLastEnd(f, q, m, os, arch);
  }

  /** A name of that layout has the shape, with `q` just past the version's first '.' and `m`
      just past the '.' before the OS name. */
  lemma LayoutShaped(f: string, v: string, digits: string, rest: string, os: string, arch: string)
    requires v == digits + "." + rest
    requires AllDigits(digits)
    requires forall k :: 0 <= k < |rest| ==> ClassChar(rest[k])
    requires os != "" && !ClassChar(os[0])
    requires ArchiveLayout(f, v, os, arch)
    ensures ShapedAt(f, 3 + |digits|, 3 + |v|, os, arch)
  {
    LayoutRuns(f, v, digits, rest, os, arch);
    LayoutTails(f, v, os, arch);
  }

  /** The group found in a name of that layout is its version. */
  lemma LayoutMatch(f: string, v: string, digits: string, rest: string, os: string, arch: string)
    requires v == digits + "." + rest
    requires AllDigits(digits)
    requires forall k :: 0 <= k < |rest| ==> ClassChar(rest[k])
    requires os != "" && !ClassChar(os[0])
    requires ArchiveLayout(f, v, os, arch)
    ensures MatchVersion(f, os, arch) == Some(v)
  {
    LayoutFind(f, v, digits, rest, os, arch);
    MatchVersionOf(f, 0, 2 + |v|, os, arch);
    assert f[2..2 + |v|] == v;
  }

  /** The leftmost match in a name of that layout is at its start. */
  lemma LayoutFind(f: string, v: string, digits: string, rest: string, os: string, arch: string)
    requires v == digits + "." + rest
    requires AllDigits(digits)
    requires forall k :: 0 <= k < |rest| ==> ClassChar(rest[k])
    requires os != "" && !ClassChar(os[0])
    requires ArchiveLayout(f, v, os, arch)
    ensures FindVersion(f, 0, os, arch) == Some((0, 2 + |v|))
  {
    LayoutShaped(f, v, digits, rest, os, arch);
    FindShaped(f, 3 + |digits|, 3 + |v|, os, arch);
  }

  /** The same, for every name of that layout. */
  lemma LayoutMatchAll(v: string, digits: string, rest: string, os: string, arch: string)
    requires v == digits + "." + rest
    requires AllDigits(digits)
    requires forall k :: 0 <= k < |rest| ==> ClassChar(rest[k])
    requires os != "" && !ClassChar(os[0])
    ensures forall f {:trigger ArchiveLayout(f, v, os, arch)} ::
      ArchiveLayout(f, v, os, arch) ==> MatchVersion(f, os, arch) == Some(v)
  {
    forall f | ArchiveLayout(f, v, os, arch) ensures MatchVersion(f, os, arch) == Some(v) {
      LayoutMatch(f, v, digits, rest, os, arch);
    }
  }

  /** With the download URL of an official archive, `parseUrl` returns its version. */
  lemma ParseUrlCanonical(dir: string, digits: string, rest: string, os: string, arch: string)
    requires AllDigits(digits)
    requires forall k :: 0 <= k < |rest| ==> ClassChar(rest[k])
    requires os != "" && !ClassChar(os[0])
    requires '?' !in dir && '/' !in os && '?' !in os && '/' !in arch && '?' !in arch
    ensures ParseUrl(dir + "/" + ArchiveName(digits + "." + rest, os, arch), os, arch) == Ok(digits + "." + rest)
  {
    var v := digits + "." + rest;
    ArchiveNameSeparators(digits, rest, os, arch);
    ParseUrlFilenameOf(dir, ArchiveName(v, os, arch), "");
    MatchVersionCanonical(digits, rest, os, arch);
  }

  /** An official archive name holds neither '/' nor '?' when its parts do not. */
  lemma ArchiveNameSeparators(digits: string, rest: string, os: string, arch: string)
    requires AllDigits(digits)
    requires forall k :: 0 <= k < |rest| ==> ClassChar(rest[k])
    requires '/' !in os && '?' !in os && '/' !in arch && '?' !in arch
    ensures var name := ArchiveName(digits + "." + rest, os, arch);
      '/' !in name && '?' !in name
  {
    var v := digits + "." + rest;
    var name := ArchiveName(v, os, arch);
    assert '/' !in v && '?' !in v by {
      VersionChars(digits, rest);
      assert forall k :: 0 <= k < |v| ==> v[k] != '/' && v[k] != '?';
    }
    assert forall k :: 0 <= k < |name| ==> name[k] != '/' && name[k] != '?';
  }

  /** The group found in an official archive name is its version. */
  lemma MatchVersionCanonical(digits: string, rest: string, os: string, arch: string)
    requires AllDigits(digits)
    requires forall k {:trigger ClassChar(rest[k])} :: 0 <= k < |rest| ==> ClassChar(rest[k])
    requires os != "" && !ClassChar(os[0])
    ensures var v := digits + "." + rest;
      MatchVersion(ArchiveName(v, os, arch), os, arch) == Some(v)
  {
    var v := digits + "." + rest;
    ArchiveNameChars(v, os, arch);
    LayoutMatchAll(v, digits, rest, os, arch);
  }

  /** The group is read off the leftmost match. */
  lemma MatchVersionOf(f: string, s: nat, g: nat, os: string, arch: string)
    requires FindVersion(f, 0, os, arch) == Some((s, g))
    ensures s + 2 <= g <= |f|
    ensures MatchVersion(f, os, arch) == Some(f[s + 2..g])
  {
    FindVersionSound(f, 0, os, arch);
  }

  /** A tail for `os` needs the OS name's first character in the archive name. */
  lemma TailNeedsOs(f: string, os: string, arch: string)
    requires os != ""
    ensures forall s, g :: PatternAt(f, s, g, os, arch) ==> os[0] in f
  {
    forall s, g | PatternAt(f, s, g, os, arch) ensures os[0] in f {
      assert f[g + 1] == os[0];
    }
  }

  /** An archive whose name does not contain the host OS's name is refused. */
  lemma ParseUrlOtherPlatform(url: string, os: string, arch: string)
    requires os != "" && os[0] !in ParseUrlFilename(url)
    ensures ParseUrl(url, os, arch) == Err("couldn't match")
  {
    MatchVersionComplete(ParseUrlFilename(url), os, arch);
    TailNeedsOs(ParseUrlFilename(url), os, arch);
  }

  /** A darwin archive is refused on a linux host, whatever its version and architecture and
      wherever it is downloaded from. */
  lemma ParseUrlDarwinOnLinux(dir: string, v: string, arch: string, hostArch: string)
    requires '?' !in dir
    requires 'l' !in v && '/' !in v && '?' !in v
    requires 'l' !in arch && '/' !in arch && '?' !in arch
    ensures ParseUrl(dir + "/" + ArchiveName(v, "darwin", arch), "linux", hostArch) == Err("couldn't match")
  {
    var f := ArchiveName(v, "darwin", arch);
    DarwinArchiveChars(v, arch);
    ParseUrlFilenameOf(dir, f, "");
    ParseUrlOtherPlatform(dir + "/" + f, "linux", hostArch);
  }

  lemma DarwinArchiveChars(v: string, arch: string)
    requires 'l' !in v && '/' !in v && '?' !in v
    requires 'l' !in arch && '/' !in arch && '?' !in arch
    ensures var f := ArchiveName(v, "darwin", arch);
      'l' !in f && '/' !in f && '?' !in f
  {
    ArchiveNameHas(v, "darwin", arch, 'l');
    ArchiveNameHas(v, "darwin", arch, '/');
    ArchiveNameHas(v, "darwin", arch, '?');
  }

  /** The characters of an archive name are those of its parts and of the fixed text. */
  lemma ArchiveNameHas(v: string, os: string, arch: string, x: char)
    ensures x in ArchiveName(v, os, arch) <==>
      x in "go" || x in v || x == '.' || x in os || x == '-' || x in arch || x in ".tar.gz"
  {
    assert ArchiveName(v, os, arch) == "go" + v + "." + os + "-" + arch + ".tar.gz";
  }

  datatype EnvError =
    | NoMatch
    | AlreadyInstalled
    | DownloadFailed
    | ShaMismatch
    | UnpackFailed
    | RenameFailed
    | NotFound
    | InUse
    | RemoveFailed

  /** The install directory of a version: `<GoEnvPath>/go<version>`. */
  function InstallPath(cfg: Config, version: string): string
  {
    PathJoin(cfg.goEnvPath, "go" + version)
  }

  /** `addEnv`: the version from the URL; refuse a version already recorded; download; compare
      the file's SHA-256 (lower-case hex, "" when the file cannot be read) with the supplied
      sum lower-cased; unpack; move into the install directory; record it with the id `newId`.
      `digest` is None when the download fails. */
  function AddEnv(st: Store, cfg: Config, hostOs: string, hostArch: string, url: string, sha2: string,
                  digest: Option<string>, unpackOk: bool, renameOk: bool, newId: int): (r: Result<Store, EnvError>)
    ensures ParseUrl(url, hostOs, hostArch).Err? ==> r == Err(NoMatch)
    ensures ParseUrl(url, hostOs, hostArch).Ok? && GoVersionList(st, ParseUrl(url, hostOs, hostArch).value) != [] ==>
      r == Err(AlreadyInstalled)
    ensures ParseUrl(url, hostOs, hostArch).Ok? && GoVersionList(st, ParseUrl(url, hostOs, hostArch).value) == [] ==>
      && (digest.None? ==> r == Err(DownloadFailed))
      && (digest.Some? && digest.value != ToLower(sha2) ==> r == Err(ShaMismatch))
    ensures r.Ok? <==>
      && ParseUrl(url, hostOs, hostArch).Ok?
      && (forall v :: v in st.versions ==> v.version != ParseUrl(url, hostOs, hostArch).value)
      && digest.Some? && digest.value == ToLower(sha2) && unpackOk && renameOk
    ensures r.Ok? ==>
      var version := ParseUrl(url, hostOs, hostArch).value;
      && r.value == st.(versions := st.versions +
           [GoVersion(newId, version, hostOs, hostArch, url, sha2, InstallPath(cfg, version))])
  {
    match ParseUrl(url, hostOs, hostArch)
    case Err(_) => Err(NoMatch)
    case Ok(version) =>
      var listed := GoVersionList(st, version);
      if |listed| > 0 then Err(AlreadyInstalled)
      else match digest
        case None => Err(DownloadFailed)
        case Some(sum) =>
          if sum != ToLower(sha2) then Err(ShaMismatch)
          else if !unpackOk then Err(UnpackFailed)
          else if !renameOk then Err(RenameFailed)
          else Ok(st.(versions := st.versions +
                 [GoVersion(newId, version, hostOs, hostArch, url, sha2, InstallPath(cfg, version))]))
  }

  /** No two recorded toolchains share a version string. */
  predicate UniqueVersions(st: Store)
  {
    forall i, j :: 0 <= i < j < |st.versions| ==> st.versions[i].version != st.versions[j].version
  }

  /** Installing keeps version strings unique, and the recorded install directory is the one a
      build looks up for the name `go<version>`. */
  lemma AddEnvInstalls(st: Store, cfg: Config, hostOs: string, hostArch: string, url: string, sha2: string,
                       digest: Option<string>, unpackOk: bool, renameOk: bool, newId: int)
    requires UniqueVersions(st)
    requires AddEnv(st, cfg, hostOs, hostArch, url, sha2, digest, unpackOk, renameOk, newId).Ok?
    ensures var st' := AddEnv(st, cfg, hostOs, hostArch, url, sha2, digest, unpackOk, renameOk, newId).value;
      && UniqueVersions(st')
      && st'.versions[|st.versions|].localPath == Tasks.ToolchainPath(cfg, "go" + st'.versions[|st.versions|].version)
  {
    var st' := AddEnv(st, cfg, hostOs, hostArch, url, sha2, digest, unpackOk, renameOk, newId).value;
    var n := |st.versions|;
    forall i, j | 0 <= i < j < |st'.versions|
      ensures st'.versions[i].version != st'.versions[j].version
    {
      assert st'.versions[i] == st.versions[i];
      if j == n {
        assert st.versions[i] in st.versions;
      } else {
        assert st'.versions[j] == st.versions[j];
      }
    }
  }

  /** The comparison is case-insensitive in the supplied sum only: any sum matches the
      lower-cased digest, a sum with an upper-case letter does not match as the digest when
      its lower-cased form is supplied, and a file that cannot be read hashes to "", so an
      empty supplied sum accepts it. */
  lemma ShaComparison(st: Store, cfg: Config, hostOs: string, hostArch: string, url: string,
                      sum: string, newId: int)
    requires ParseUrl(url, hostOs, hostArch).Ok?
    requires forall v :: v in st.versions ==> v.version != ParseUrl(url, hostOs, hostArch).value
    ensures AddEnv(st, cfg, hostOs, hostArch, url, sum, Some(ToLower(sum)), true, true, newId).Ok?
    ensures (exists k :: 0 <= k < |sum| && 'A' <= sum[k] <= 'Z') ==>
      AddEnv(st, cfg, hostOs, hostArch, url, ToLower(sum), Some(sum), true, true, newId) == Err(ShaMismatch)
    ensures AddEnv(st, cfg, hostOs, hostArch, url, "", Some(""), true, true, newId).Ok?
  {
    assert ToLower("") == "";
    if exists k :: 0 <= k < |sum| && 'A' <= sum[k] <= 'Z' {
      var k :| 0 <= k < |sum| && 'A' <= sum[k] <= 'Z';
      assert ToLower(ToLower(sum))[k] != sum[k];
      AddEnvDigest(st, cfg, hostOs, hostArch, url, ToLower(sum), sum, newId);
    }
  }

  /** With the version free, a downloaded file whose digest differs from the lowered sum is
      refused. */
  lemma AddEnvDigest(st: Store, cfg: Config, hostOs: string, hostArch: string, url: string,
                     sha2: string, sum: string, newId: int)
    requires ParseUrl(url, hostOs, hostArch).Ok?
    requires forall v :: v in st.versions ==> v.version != ParseUrl(url, hostOs, hostArch).value
    requires sum != ToLower(sha2)
    ensures AddEnv(st, cfg, hostOs, hostArch, url, sha2, Some(sum), true, true, newId) == Err(ShaMismatch)
  {
  }

  /** Toolchains other than `id`. */
  function WithoutVersion(st: Store, id: int): (st': Store)
    ensures forall v :: v in st'.versions <==> v in st.versions && v.id != id
    ensures st'.projects == st.projects && st'.tasks == st.tasks && st'.runs == st.runs
  {
    st.(versions := VersionsWithout(st.versions, id))
  }

  /** The store after a removal request, the error reported, and the directory removed. The
      record is deleted before its directory is removed, so a failed removal reports an error
      with the record already gone. */
  datatype DelOutcome = DelOutcome(store: Store, error: Option<EnvError>, removed: Option<string>)

  /** `DelEnv`: the toolchain must exist and no task may use it. */
  function DelEnv(st: Store, id: int, removeOk: bool): (r: DelOutcome)
    ensures GetGoVersion(st, id).None? ==> r == DelOutcome(st, Some(NotFound), None)
    ensures r.store != st ==> |ListTask(st, 0, id)| == 0 && GetGoVersion(st, id).Some?
    ensures r.error.None? <==> GetGoVersion(st, id).Some? && |ListTask(st, 0, id)| == 0 && removeOk
    ensures r.removed.Some? ==> r.removed.value == GetGoVersion(st, id).value.localPath
    ensures GetGoVersion(st, id).Some? && |ListTask(st, 0, id)| > 0 ==> r == DelOutcome(st, Some(InUse), None)
    ensures GetGoVersion(st, id).Some? && |ListTask(st, 0, id)| == 0 ==>
      && (forall v :: v in r.store.versions <==> v in st.versions && v.id != id)
      && r.store.projects == st.projects && r.store.tasks == st.tasks && r.store.runs == st.runs
      && (removeOk ==> r.removed == Some(GetGoVersion(st, id).value.localPath))
  {
    match GetGoVersion(st, id)
    case None => DelOutcome(st, Some(NotFound), None)
    case Some(goenv) =>
      if |ListTask(st, 0, goenv.id)| > 0 then DelOutcome(st, Some(InUse), None)
      else
        var st' := WithoutVersion(st, goenv.id);
        if removeOk then DelOutcome(st', None, Some(goenv.localPath))
        else DelOutcome(st', Some(RemoveFailed), None)
  }

  /** Every task's toolchain is recorded. */
  predicate TasksResolveVersions(st: Store)
  {
    forall t :: t in st.tasks ==> GetGoVersion(st, t.goVersion).Some?
  }

  /** Removing a toolchain never leaves a task pointing at a missing toolchain. */
  lemma DelEnvKeepsTasksResolved(st: Store, id: int, removeOk: bool)
    requires TasksResolveVersions(st)
    ensures TasksResolveVersions(DelEnv(st, id, removeOk).store)
  {
    var st' := DelEnv(st, id, removeOk).store;
    if st' != st {
      forall t | t in st'.tasks
        ensures GetGoVersion(st', t.goVersion).Some?
      {
        assert t in st.tasks;
        assert t !in ListTask(st, 0, id);
        var v := GetGoVersion(st, t.goVersion).value;
        assert v in st'.versions;
      }
    }
  }
}
