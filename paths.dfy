/** The parts of Python's `os.path` that the launcher uses on Windows, where
    `os.path` is `ntpath`: `basename`, `dirname` and `splitext`. Both `\` and
    `/` separate path components, and a second character `:` marks a drive
    prefix such as `C:`. */
module Paths {

  /** Either of the two separators `ntpath` accepts. */
  predicate IsSep(c: char)
  {
    c == '\\' || c == '/'
  }

  predicate NoSep(s: string)
  {
    forall k :: 0 <= k < |s| ==> !IsSep(s[k])
  }

  predicate AllSep(s: string)
  {
    forall k :: 0 <= k < |s| ==> IsSep(s[k])
  }

  /** Length of the drive that `ntpath.splitdrive` splits off: the first two
      characters when the second one is a colon, otherwise nothing. */
  function DriveLength(p: string): (n: nat)
    ensures n <= |p|
    ensures n == 2 <==> |p| >= 2 && p[1] == ':'
    ensures n == 0 || n == 2
  {
    if |p| >= 2 && p[1] == ':' then 2 else 0
  }

  /** One past the position of the last separator in `s`, or 0 when `s` has
      none: where the last path component starts. */
  function AfterLastSep(s: string): (i: nat)
    ensures i <= |s|
    ensures i > 0 ==> IsSep(s[i - 1])
    ensures NoSep(s[i..])
  {
    if s == [] then 0
    else if IsSep(s[|s| - 1]) then |s|
    else AfterLastSep(s[..|s| - 1])
  }

  /** Python's `s.rfind(c)`: the last position holding `c`, or -1. */
  function RFind(s: string, c: char): (r: int)
    ensures -1 <= r < |s|
    ensures r >= 0 ==> s[r] == c
    ensures forall k :: r < k < |s| ==> s[k] != c
  {
    if s == [] then -1
    else if s[|s| - 1] == c then |s| - 1
    else RFind(s[..|s| - 1], c)
  }

  /** `s.rstrip('\\/')`: drops trailing separators. */
  function StripTrailingSeps(s: string): (r: string)
    ensures |r| <= |s| && r == s[..|r|]
    ensures r == [] || !IsSep(r[|r| - 1])
    ensures AllSep(s[|r|..])
  {
    if s != [] && IsSep(s[|s| - 1]) then StripTrailingSeps(s[..|s| - 1]) else s
  }

  /** `ntpath.basename(p)`: the text after the drive and after the last separator. */
  function Basename(p: string): (b: string)
    ensures |b| <= |p| && b == p[|p| - |b|..] && NoSep(b)
    ensures |b| == |p| - DriveLength(p) || (|b| < |p| - DriveLength(p) && IsSep(p[|p| - |b| - 1]))
  {
    var rest := p[DriveLength(p)..];
    rest[AfterLastSep(rest)..]
  }

  /** `head.rstrip('\\/') or head`: the directory text `ntpath.split` keeps
      of everything up to the last separator, which is a prefix of it
      followed there by separators only. */
  function DirOfHead(head: string): (d: string)
    ensures |d| <= |head| && d == head[..|d|] && AllSep(head[|d|..])
    ensures d == [] <==> head == []
    ensures AllSep(head) ==> d == head
    ensures !AllSep(head) ==> !IsSep(d[|d| - 1])
  {
    var trimmed := StripTrailingSeps(head);
    if trimmed == [] then head else trimmed
  }

  lemma DirOfHeadSplit(head: string) returns (seps: string)
    ensures AllSep(seps) && head == DirOfHead(head) + seps
  {
    var d := DirOfHead(head);
    seps := head[|d|..];
    assert head == head[..|d|] + head[|d|..];
  }

  /** `ntpath.dirname(p)`: the drive followed by everything up to the last
      separator, with trailing separators removed unless nothing else is left. */
  function Dirname(p: string): string
  {
    var n := DriveLength(p);
    var rest := p[n..];
    p[..n] + DirOfHead(rest[..AfterLastSep(rest)])
  }

  /** The pieces `ntpath.split` cuts a path into: the drive, everything up
      to the last separator, and the rest. */
  lemma SplitParts(p: string) returns (drive: string, head: string, tail: string)
    ensures drive == p[..DriveLength(p)]
    ensures p == drive + (head + tail)
    ensures Dirname(p) == drive + DirOfHead(head)
    ensures Basename(p) == tail && NoSep(tail)
  {
    var n := DriveLength(p);
    var rest := p[n..];
    var i := AfterLastSep(rest);
    drive, head, tail := p[..n], rest[..i], rest[i..];
    assert rest == head + tail;
    assert p == drive + rest;
  }

  /** `ntpath.split` in one statement: a path is its directory, a (possibly
      empty) run of separators and its base name, and the base name holds no
      separator. */
  lemma DirnameBasenameSplit(p: string) returns (seps: string)
    ensures NoSep(Basename(p))
    ensures AllSep(seps) && p == Dirname(p) + seps + Basename(p)
  {
    var drive, head, tail := SplitParts(p);
    var d := DirOfHead(head);
    seps := DirOfHeadSplit(head);
    Reassemble(p, drive, head, tail, d, seps, Dirname(p), Basename(p));
  }

  lemma Reassemble(p: string, drive: string, head: string, tail: string, d: string, seps: string,
                   dir: string, base: string)
    requires p == drive + (head + tail) && head == d + seps
    requires dir == drive + d && base == tail
    ensures p == dir + seps + base
  {
    assert drive + d + seps + tail == drive + (d + seps) + tail;
  }

  /** The directory part is empty exactly for a bare file name: no drive and
      no separator anywhere. */
  lemma DirnameEmptyIff(p: string)
    ensures Dirname(p) == [] <==> DriveLength(p) == 0 && NoSep(p)
  {
    var n := DriveLength(p);
    var rest := p[n..];
    var i := AfterLastSep(rest);
    if n == 0 && NoSep(p) {
      assert rest == p;
    }
    if n == 0 && !NoSep(p) {
      var k :| 0 <= k < |p| && IsSep(p[k]);
      assert rest == p;
      assert k < i;
    }
  }

  /** Where `genericpath._splitext(p, '\\', '/', '.')` splits off the
      extension: at the last dot, provided it lies in the last component and
      is preceded there by some character other than a dot; otherwise at the
      end (no extension). */
  function ExtStart(p: string): (i: nat)
    ensures i <= |p| && AfterLastSep(p) <= i
    ensures i < |p| ==> p[i] == '.'
  {
    var sepEnd := AfterLastSep(p);
    var dot := RFind(p, '.');
    if sepEnd <= dot && exists k :: sepEnd <= k < dot && p[k] != '.' then dot else |p|
  }

  /** `ntpath.splitext(p)[1]`. */
  function Ext(p: string): (x: string)
    ensures x == [] || (x[0] == '.' && NoSep(x) && forall k :: 1 <= k < |x| ==> x[k] != '.')
  {
    p[ExtStart(p)..]
  }

  /** `ntpath.splitext(p)[0]`. */
  function Root(p: string): (r: string)
    ensures r + Ext(p) == p
  {
    p[..ExtStart(p)]
  }

  /** A root cut from a name without separators has none either. */
  lemma RootHasNoSep(p: string)
    requires NoSep(p)
    ensures NoSep(Root(p))
  {
    var r := Root(p);
    forall k | 0 <= k < |r| ensures !IsSep(r[k]) {
      assert r[k] == p[k];
    }
  }

  /** The last component of `r` has a character that is not a dot, so a dot
      appended to `r` starts an extension rather than a hidden file name. */
  predicate HasStem(r: string)
  {
    exists k :: AfterLastSep(r) <= k < |r| && r[k] != '.'
  }

  lemma AfterLastSepAppend(r: string, x: string)
    requires NoSep(x)
    ensures AfterLastSep(r + x) == AfterLastSep(r)
  {
    if x != [] {
      assert (r + x)[..|r + x| - 1] == r + x[..|x| - 1];
      AfterLastSepAppend(r, x[..|x| - 1]);
    } else {
      assert r + x == r;
    }
  }

  predicate NoDot(x: string)
  {
    forall k :: 0 <= k < |x| ==> x[k] != '.'
  }

  /** A non-empty extension splits the path into a root that has a stem,
      a dot and a dot-free, separator-free tail. */
  lemma {:induction false} ExtSplits(p: string, x: string)
    requires Ext(p) == "." + x
    ensures p == Root(p) + "." + x && HasStem(Root(p))
  {
    var r := Root(p);
    var sepEnd := AfterLastSep(p);
    var dot := RFind(p, '.');
    assert ExtStart(p) == dot && |r| == dot;
    var k :| sepEnd <= k < dot && p[k] != '.';
    assert NoSep(p[dot..]);
    AfterLastSepAppend(r, p[dot..]);
    assert p == r + p[dot..];
    assert r[k] == p[k];
  }

  /** Appending ".x" to a root that has a stem gives the extension ".x". */
  lemma {:induction false} ExtOfAppend(r: string, x: string)
    requires NoSep(x) && NoDot(x) && HasStem(r)
    ensures Ext(r + "." + x) == "." + x
  {
    var p := r + "." + x;
    assert NoSep("." + x);
    AfterLastSepAppend(r, "." + x);
    assert p == r + ("." + x);
    var dot := RFind(p, '.');
    assert p[|r|] == '.';
    assert dot == |r|;
    var k :| AfterLastSep(r) <= k < |r| && r[k] != '.';
    assert p[k] == r[k];
    assert ExtStart(p) == |r|;
    assert p[|r|..] == "." + x;
  }

  /** The extension is ".x" exactly when the path is some `r` with a stem
      followed by ".x" (for `x` free of dots and separators). */
  lemma ExtIff(p: string, x: string)
    requires NoSep(x) && NoDot(x)
    ensures Ext(p) == "." + x <==> exists r :: p == r + "." + x && HasStem(r)
  {
    if Ext(p) == "." + x {
      ExtSplits(p, x);
    }
    if exists r :: p == r + "." + x && HasStem(r) {
      var r :| p == r + "." + x && HasStem(r);
      ExtOfAppend(r, x);
    }
  }
}
