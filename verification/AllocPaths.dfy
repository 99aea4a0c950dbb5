/** Splitting file names into directory components, as the debug allocator of core/net_os.c does. */
module AllocPaths {
  const SEPARATOR := '\\'

  type Path = seq<string>

  /** Characters before the next separator. */
  function Plain(s: string): (n: nat)
    ensures n <= |s|
  {
    if s == "" || s[0] == SEPARATOR then 0 else 1 + Plain(s[1..])
  }

  /** Characters of the drive prefix: those skipped and those counted differ after a leading separator. */
  function Skipped(s: string): (n: nat)
    ensures n <= |s|
  {
    var k := if s != "" && s[0] == SEPARATOR then 1 else 0;
    if |s| >= k + 3 && s[k] == 'C' && s[k + 1] == ':' && s[k + 2] == SEPARATOR then k + 3 else k
  }

  function Counted(s: string): (n: nat)
    ensures n <= Skipped(s)
    ensures s != "" && s[0] == SEPARATOR ==> n > 0
  {
    if Skipped(s) >= 3 then 3 else Skipped(s)
  }

  /** Length of the first component. */
  function DirLen(s: string): (n: nat)
    ensures n <= |s|
    ensures s != "" ==> n > 0
  {
    Counted(s) + Plain(s[Skipped(s)..])
  }

  method GetDirLen(filename: string) returns (len: nat)
    ensures len == DirLen(filename)
  {
    len := 0;
    if filename != "" {
      var at := 0;
      if filename[0] == SEPARATOR {
        len, at := 1, 1;
      }
      if |filename| >= at + 3 && filename[at] == 'C' && filename[at + 1] == ':' && filename[at + 2] == SEPARATOR {
        len, at := 3, at + 3;
      }
      while at < |filename| && filename[at] != SEPARATOR
        invariant at <= |filename|
        invariant DirLen(filename) == len + Plain(filename[at..])
      {
        assert filename[at..][1..] == filename[at + 1..];
        len, at := len + 1, at + 1;
      }
    }
  }

  function Split(s: string): (p: Path)
    ensures s != "" <==> p != []
    decreases |s|
  {
    if s == "" then [] else [s[..DirLen(s)]] + Split(s[DirLen(s)..])
  }

  lemma SplitStep(filename: string)
    requires filename != ""
    ensures Split(filename) == [filename[..DirLen(filename)]] + Split(filename[DirLen(filename)..])
  {
  }

  function Joined(p: Path): string {
    if p == [] then "" else p[0] + Joined(p[1..])
  }

  /** Nothing of the name is lost, and no component is empty. */
  lemma {:induction false} SplitJoins(s: string)
    ensures Joined(Split(s)) == s
    ensures forall i :: 0 <= i < |Split(s)| ==> Split(s)[i] != ""
    decreases |s|
  {
    hide DirLen;
    if s != "" {
      SplitJoins(s[DirLen(s)..]);
      assert Split(s)[1..] == Split(s[DirLen(s)..]);
    }
  }

  // ----- Where a name can be taken apart

  /** What is left of the name is a drive as soon as a separator follows. */
  predicate OpenDrive(s: string) {
    s == "C:" || s == [SEPARATOR] + "C:"
  }

  predicate Closed(d: string) {
    d == "" || !OpenDrive(Split(d)[|Split(d)| - 1])
  }

  predicate Onward(rest: string) {
    rest == "" || rest[0] == SEPARATOR
  }

  lemma {:induction false} PlainStops(s: string, rest: string)
    requires Onward(rest)
    ensures Plain(s + rest) == Plain(s)
  {
    if s == "" {
      assert s + rest == rest;
    } else {
      assert (s + rest)[1..] == s[1..] + rest;
      PlainStops(s[1..], rest);
    }
  }

  lemma DirLenStops(s: string, rest: string)
    requires s != "" && Onward(rest) && !OpenDrive(s)
    ensures DirLen(s + rest) == DirLen(s)
  {
    assert Skipped(s + rest) == Skipped(s);
    assert (s + rest)[Skipped(s)..] == s[Skipped(s)..] + rest;
    PlainStops(s[Skipped(s)..], rest);
  }

  lemma OpenIsWhole(s: string)
    ensures OpenDrive(s) ==> Split(s) == [s]
  {
    if OpenDrive(s) {
      var t := s[|s| - 2..];
      assert t == "C:" && SEPARATOR !in t;
      PlainAll(t);
      assert s[Skipped(s)..] == t;
      assert DirLen(s) == |s| && s[..|s|] == s && s[|s|..] == "";
      SplitStep(s);
      hide Split, DirLen;
    }
  }

  /** With more components to come, what is left is no open drive, and the name stays closed. */
  lemma ClosedStep(s: string)
    requires s != "" && Closed(s)
    ensures !OpenDrive(s) && Closed(s[DirLen(s)..])
  {
    OpenIsWhole(s);
    SplitStep(s);
    hide Split, DirLen, OpenDrive;
    var rest := s[DirLen(s)..];
    if rest != "" {
      assert Split(s)[|Split(s)| - 1] == Split(rest)[|Split(rest)| - 1];
    }
  }

  /** A name is taken apart at any separator, unless that completes a drive. */
  lemma {:induction false} SplitAppend(d: string, rest: string)
    requires Closed(d) && Onward(rest)
    ensures Split(d + rest) == Split(d) + Split(rest)
    decreases |d|
  {
    hide *;
    if d == "" {
      assert d + rest == rest;
    } else {
      ClosedStep(d);
      DirLenStops(d, rest);
      SplitStep(d);
      SplitStep(d + rest);
      var len := DirLen(d);
      assert (d + rest)[..len] == d[..len] && (d + rest)[len..] == d[len..] + rest;
      SplitAppend(d[len..], rest);
      assert [d[..len]] + (Split(d[len..]) + Split(rest)) == [d[..len]] + Split(d[len..]) + Split(rest);
    }
  }

  /** Behind a leading separator a drive counts for one character less than it has: the first directory of
      `\C:\a` loses its last character to the next component. */
  lemma DriveCutsShort(a: string, rest: string)
    requires a != "" && SEPARATOR !in a && Onward(rest)
    ensures var s := [SEPARATOR] + "C:" + [SEPARATOR] + a + rest;
      Split(s) == [[SEPARATOR] + "C:" + [SEPARATOR] + a[..|a| - 1]] + Split(a[|a| - 1..] + rest)
  {
    var drive := [SEPARATOR] + "C:" + [SEPARATOR];
    var s := drive + a + rest;
    assert s[4..] == a + rest;
    PlainStops(a, rest);
    PlainAll(a);
    assert DirLen(s) == 3 + |a|;
    assert s[..3 + |a|] == drive + a[..|a| - 1] && s[3 + |a|..] == a[|a| - 1..] + rest;
    hide DirLen;
  }

  /** A drive in front belongs to the first component, together with the name behind it. */
  lemma DriveOpensPart(a: string, rest: string)
    requires SEPARATOR !in a && Onward(rest)
    ensures Split("C:" + [SEPARATOR] + a + rest) == ["C:" + [SEPARATOR] + a] + Split(rest)
  {
    var drive := "C:" + [SEPARATOR];
    var s := drive + a + rest;
    assert s[3..] == a + rest;
    PlainStops(a, rest);
    PlainAll(a);
    assert DirLen(s) == 3 + |a|;
    assert s[..3 + |a|] == drive + a && s[3 + |a|..] == rest;
    hide DirLen;
  }

  /** For example, */
  lemma DriveExample()
    ensures Split("C:\\work\\main.c") == ["C:\\work", "\\main.c"]
  {
    hide Split, DirLen, Plain, Skipped, Counted;
    DriveOpensPart("work", "\\main.c");
    assert "C:\\work\\main.c" == "C:" + [SEPARATOR] + "work" + "\\main.c";
    assert "C:\\work" == "C:" + [SEPARATOR] + "work";
    DriveOpens("\\main.c");
  }

  lemma DriveOpens(s: string)
    requires s == [SEPARATOR] + "main.c"
    ensures Split(s) == [s]
  {
    PlainAll("main.c");
    assert s[1..] == "main.c" && s[1] == 'm';
    assert DirLen(s) == 7 == |s|;
    assert s[..7] == s && s[7..] == "";
  }

  /** A leading separator, a drive, and a name behind it. */
  predicate LeadingDrive(s: string) {
    4 < |s| && s[0] == SEPARATOR && s[1] == 'C' && s[2] == ':' && s[3] == SEPARATOR && s[4] != SEPARATOR
  }

  /** These are the only names whose first component does not end at a separator or with the name. */
  lemma EndsAtSeparator(s: string)
    requires s != ""
    ensures Onward(s[DirLen(s)..]) <==> !LeadingDrive(s)
  {
    var k := Skipped(s);
    PlainIsClean(s[k..]);
    assert s[k..][Plain(s[k..])..] == s[k + Plain(s[k..])..];
    if LeadingDrive(s) {
      assert k == 4 && s[4..][0] == s[4];
      assert s[DirLen(s)..][0] == s[DirLen(s)];
      assert s[4..][..Plain(s[4..])][Plain(s[4..]) - 1] == s[3 + Plain(s[4..])];
    }
  }

  lemma {:induction false} PlainAll(a: string)
    requires SEPARATOR !in a
    ensures Plain(a) == |a|
  {
    if a != "" {
      PlainAll(a[1..]);
    }
  }

  // ----- Names without a drive

  predicate Driveless(s: string) {
    forall i :: 0 <= i && i + 3 <= |s| ==> !(s[i] == 'C' && s[i + 1] == ':' && s[i + 2] == SEPARATOR)
  }

  /** A separator at most in front. */
  predicate CleanPart(c: string) {
    c != "" && SEPARATOR !in c[1..]
  }

  predicate Clean(p: Path) {
    && (forall i :: 0 <= i < |p| ==> CleanPart(p[i]))
    && forall i :: 0 < i < |p| ==> p[i] != "" && p[i][0] == SEPARATOR
  }

  lemma {:induction false} PlainIsClean(s: string)
    ensures SEPARATOR !in s[..Plain(s)] && Onward(s[Plain(s)..])
  {
    if s != "" && s[0] != SEPARATOR {
      PlainIsClean(s[1..]);
      assert s[..Plain(s)] == [s[0]] + s[1..][..Plain(s[1..])];
      assert s[Plain(s)..] == s[1..][Plain(s[1..])..];
    }
  }

  lemma DrivelessLen(s: string)
    requires s != "" && Driveless(s)
    ensures var k := if s[0] == SEPARATOR then 1 else 0;
      DirLen(s) == k + Plain(s[k..])
  {
    hide Plain;
  }

  lemma FirstPart(s: string)
    requires s != "" && Driveless(s)
    ensures CleanPart(s[..DirLen(s)]) && Onward(s[DirLen(s)..])
  {
    hide Driveless, DirLen, Plain;
    DrivelessLen(s);
    var k := if s[0] == SEPARATOR then 1 else 0;
    PlainIsClean(s[k..]);
    var n := Plain(s[k..]);
    assert s[k..][..n] == s[k..k + n] && s[k..][n..] == s[k + n..];
    assert s[..k + n][1..] == s[1..k + n];
    forall i | 1 <= i < k + n ensures s[i] != SEPARATOR {
      assert s[i] == s[k..k + n][i - k];
    }
  }

  /** A name without a drive falls into clean components. */
  lemma {:induction false} CleanSplit(s: string)
    requires Driveless(s)
    ensures Clean(Split(s)) && (s != "" ==> Split(s)[0][0] == s[0])
    decreases |s|
  {
    if s != "" {
      FirstPart(s);
      SplitStep(s);
      var first, rest := s[..DirLen(s)], s[DirLen(s)..];
      hide Split, DirLen;
      assert forall i :: 0 <= i < |rest| ==> rest[i] == s[i + DirLen(s)];
      CleanSplit(rest);
      CleanCons(first, Split(rest));
    }
  }

  lemma CleanCons(first: string, q: Path)
    requires CleanPart(first) && Clean(q) && (q != [] ==> q[0][0] == SEPARATOR)
    ensures Clean([first] + q)
  {
    var p := [first] + q;
    assert q != [] ==> q[0] != "";
    assert forall i :: 0 < i < |p| ==> p[i] == q[i - 1] && (i > 1 ==> q[i - 1][0] == SEPARATOR);
  }
}
