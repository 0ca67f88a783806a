/** The parts of Python's `posixpath` that name an output file:
    `str.rfind`, `basename`, `splitext` and two-argument `join`. */
module PosixPath {

  /** `s.rfind(c)`: the index of the last `c` in `s`, or -1 when there is none. */
  function RFind(s: string, c: char): (i: int)
    ensures -1 <= i < |s|
    ensures i >= 0 ==> s[i] == c
    ensures forall j :: i < j < |s| ==> s[j] != c
  {
    if s == [] then -1
    else if s[|s| - 1] == c then |s| - 1
    else RFind(s[..|s| - 1], c)
  }

  /** `posixpath.basename(p)`: what follows the last `/`. */
  function Basename(p: string): (r: string)
    ensures |r| <= |p| && r == p[|p| - |r|..]
    ensures '/' !in r
    ensures |r| < |p| ==> p[|p| - |r| - 1] == '/'
  {
    p[RFind(p, '/') + 1..]
  }

  /** A file name has an extension when some character other than `.` comes
      before a `.`: leading dots (as in `.bashrc`) do not start one. */
  ghost predicate HasExtension(name: string) {
    exists i, j :: 0 <= i < j < |name| && name[i] != '.' && name[j] == '.'
  }

  predicate AllDots(s: string) {
    forall i :: 0 <= i < |s| ==> s[i] == '.'
  }

  /** `posixpath.splitext(p)`: `(root, ext)` where `ext` runs from the last `.`
      of the last path component, unless only dots come before that `.` in the
      component, in which case `ext` is empty. */
  function SplitExt(p: string): (r: (string, string))
    ensures r.0 + r.1 == p
    ensures r.1 != [] ==> r.1[0] == '.' && '.' !in r.1[1..] && '/' !in r.1
  {
    var e := ExtensionStart(p);
    SplitAt(p, e);
    (p[..e], p[e..])
  }

  /** Where `splitext` cuts `p`: at its extension's dot, or at the end. */
  function ExtensionStart(p: string): (e: nat)
    ensures e <= |p|
    ensures e < |p| ==> p[e] == '.' && '.' !in p[e + 1..] && '/' !in p[e..]
  {
    var sepIndex := RFind(p, '/');
    var dotIndex := RFind(p, '.');
    if dotIndex > sepIndex && !AllDots(p[sepIndex + 1..dotIndex]) then
      ExtensionTail(p, sepIndex, dotIndex);
      dotIndex
    else
      |p|
  }

  /** `splitext` finds an extension exactly when the last path component has
      a character other than `.` somewhere before a `.`. */
  lemma SplitExtFindsExtension(p: string)
    ensures SplitExt(p).1 != [] <==> HasExtension(Basename(p))
  {
    var e := ExtensionStart(p);
    assert SplitExt(p).1 == p[e..];
    var sepIndex := RFind(p, '/');
    var dotIndex := RFind(p, '.');
    if dotIndex > sepIndex && !AllDots(p[sepIndex + 1..dotIndex]) {
      assert e == dotIndex < |p|;
      ExtensionWitness(p, sepIndex, dotIndex);
    } else {
      assert e == |p|;
      NoExtension(p, sepIndex, dotIndex);
    }
  }

  lemma ExtensionTail(p: string, sepIndex: int, dotIndex: int)
    requires sepIndex == RFind(p, '/') && dotIndex == RFind(p, '.')
    requires 0 <= dotIndex && dotIndex > sepIndex
    ensures '.' !in p[dotIndex + 1..] && '/' !in p[dotIndex..]
  {
  }

  lemma ExtensionWitness(p: string, sepIndex: int, dotIndex: int)
    requires sepIndex == RFind(p, '/') && dotIndex == RFind(p, '.')
    requires dotIndex > sepIndex && !AllDots(p[sepIndex + 1..dotIndex])
    ensures HasExtension(Basename(p))
  {
    var b := Basename(p);
    var k := sepIndex + 1;
    var i :| 0 <= i < |p[k..dotIndex]| && p[k..dotIndex][i] != '.';
    assert b == p[k..];
    assert b[i] == p[k + i] && b[dotIndex - k] == p[dotIndex];
  }

  lemma SplitAt(p: string, i: nat)
    requires i <= |p|
    ensures p[..i] + p[i..] == p
  {
  }

  lemma NoExtension(p: string, sepIndex: int, dotIndex: int)
    requires sepIndex == RFind(p, '/') && dotIndex == RFind(p, '.')
    requires !(dotIndex > sepIndex && !AllDots(p[sepIndex + 1..dotIndex]))
    ensures !HasExtension(Basename(p))
  {
    var b := Basename(p);
    var k := sepIndex + 1;
    assert b == p[k..];
    forall i, j | 0 <= i < j < |b| && b[i] != '.' ensures b[j] != '.' {
      assert b[i] == p[k + i] && b[j] == p[k + j];
    }
  }

  /** `posixpath.join(a, b)`: an absolute `b` replaces `a`; otherwise `b` is
      appended to `a`, with a `/` between them unless `a` is empty or already
      ends in one. */
  function Join(a: string, b: string): (r: string)
    ensures |b| > 0 && b[0] == '/' ==> r == b
    ensures !(|b| > 0 && b[0] == '/') ==>
      r == (if a == [] || a[|a| - 1] == '/' then a else a + "/") + b
  {
    if |b| > 0 && b[0] == '/' then b
    else if a == [] || a[|a| - 1] == '/' then a + b
    else a + "/" + b
  }

  /** Joining a non-empty name to a directory keeps the name's base name. */
  lemma JoinKeepsBasename(a: string, b: string)
    requires b != []
    ensures Basename(Join(a, b)) == Basename(b)
  {
    if !(b[0] == '/') {
      var dir := if a == [] || a[|a| - 1] == '/' then a else a + "/";
      BasenameAfterSeparator(dir, b);
    }
  }

  /** What precedes a `/` never shows in the base name. */
  lemma BasenameAfterSeparator(p: string, b: string)
    requires p == [] || p[|p| - 1] == '/'
    requires b != []
    ensures Basename(p + b) == Basename(b)
  {
    var s := p + b;
    var r, rb := Basename(s), Basename(b);
    assert r == s[|s| - |r|..];
    assert rb == s[|s| - |rb|..];
    var q := |s| - |rb| - 1;
    if q >= 0 {
      if |rb| < |b| {
        assert s[q] == b[|b| - |rb| - 1];
      } else {
        assert s[q] == p[|p| - 1];
      }
      SlashBeforeSuffix(s, r, q);
    }
    if |r| < |s| {
      SlashBeforeSuffix(s, rb, |s| - |r| - 1);
    }
  }

  /** A `/`-free suffix of `s` starts after every `/` of `s`. */
  lemma SlashBeforeSuffix(s: string, u: string, q: int)
    requires |u| <= |s| && u == s[|s| - |u|..] && '/' !in u
    requires 0 <= q < |s| && s[q] == '/'
    ensures q < |s| - |u|
  {
  }
}
