/**
 * The POSIX path helpers compareMaps.py relies on: str.rfind for one
 * character, os.path.basename, os.path.splitext and os.path.join with two
 * components, as CPython's posixpath defines them.
 */
module PosixPath {

  const Sep: char := '/'
  const ExtSep: char := '.'

  /** The index of the last `c` in `s`, or -1 when `s` has none. */
  function RFind(s: string, c: char): (i: int)
    ensures -1 <= i < |s|
    ensures 0 <= i ==> s[i] == c
    ensures forall j :: i < j < |s| ==> s[j] != c
  {
    if |s| == 0 then -1
    else if s[|s| - 1] == c then |s| - 1
    else RFind(s[..|s| - 1], c)
  }

  /** os.path.basename: the text after the last separator. */
  function Basename(p: string): (b: string)
    ensures Sep !in b
    ensures |b| <= |p| && p[|p| - |b|..] == b
    ensures |b| == |p| || p[|p| - |b| - 1] == Sep
  {
    p[RFind(p, Sep) + 1..]
  }

  predicate AllDots(s: string) {
    forall i :: 0 <= i < |s| ==> s[i] == ExtSep
  }

  /**
   * Independent reading of "has an extension": some dot follows a character
   * that is not a dot, with no separator from that character on. Leading
   * dots of the final component therefore never start an extension.
   */
  ghost predicate HasExtension(p: string) {
    exists j, d :: 0 <= j < d < |p| && p[j] != ExtSep && p[d] == ExtSep && NoSepFrom(p, j)
  }

  ghost predicate NoSepFrom(p: string, j: int) {
    forall m :: 0 <= j <= m < |p| ==> p[m] != Sep
  }

  /**
   * os.path.splitext: split at the last dot of the final component, unless
   * everything before that dot in the component is dots.
   */
  function SplitExt(p: string): (parts: (string, string))
    ensures parts.0 + parts.1 == p
    ensures parts.1 == [] || (parts.1[0] == ExtSep && ExtSep !in parts.1[1..] && Sep !in parts.1)
  {
    var sepIndex := RFind(p, Sep);
    var dotIndex := RFind(p, ExtSep);
    if dotIndex > sepIndex && !AllDots(p[sepIndex + 1..dotIndex]) then
      var ext := p[dotIndex..];
      assert forall k :: 0 <= k < |ext| ==> ext[k] == p[dotIndex + k];
      (p[..dotIndex], ext)
    else
      (p, [])
  }

  /** splitext finds an extension exactly when the independent reading says there is one. */
  lemma ExtensionCharacterised(p: string)
    ensures SplitExt(p).1 != [] <==> HasExtension(p)
  {
    if SplitExt(p).1 != [] {
      SplitExtDecision(p);
      ExtensionWitness(p);
    }
    if HasExtension(p) {
      var j, d :| 0 <= j < d < |p| && p[j] != ExtSep && p[d] == ExtSep && NoSepFrom(p, j);
      WitnessGivesExtension(p, j, d);
      SplitExtDecision(p);
    }
  }

  /** The test splitext makes, in terms of the last separator and the last dot. */
  predicate SplitsAtLastDot(p: string) {
    var sepIndex, dotIndex := RFind(p, Sep), RFind(p, ExtSep);
    dotIndex > sepIndex && !AllDots(p[sepIndex + 1..dotIndex])
  }

  lemma SplitExtDecision(p: string)
    ensures SplitExt(p).1 != [] <==> SplitsAtLastDot(p)
  {
  }

  lemma ExtensionWitness(p: string)
    requires SplitsAtLastDot(p)
    ensures HasExtension(p)
  {
    var sepIndex := RFind(p, Sep);
    var dotIndex := RFind(p, ExtSep);
    var mid := p[sepIndex + 1..dotIndex];
    var k :| 0 <= k < |mid| && mid[k] != ExtSep;
    var j := sepIndex + 1 + k;
    assert p[j] == mid[k];
    assert NoSepFrom(p, j);
  }

  lemma WitnessGivesExtension(p: string, j: int, d: int)
    requires 0 <= j < d < |p| && p[j] != ExtSep && p[d] == ExtSep && NoSepFrom(p, j)
    ensures SplitsAtLastDot(p)
  {
    var sepIndex := RFind(p, Sep);
    var dotIndex := RFind(p, ExtSep);
    assert sepIndex >= 0 ==> p[sepIndex] == Sep;
    var mid := p[sepIndex + 1..dotIndex];
    assert mid[j - sepIndex - 1] == p[j];
  }

  /** os.path.join with two components. */
  function Join(a: string, b: string): (r: string)
    ensures |b| == 0 || b[0] != Sep ==> |a| <= |r| && r[..|a|] == a
    ensures |b| > 0 && b[0] == Sep ==> r == b
  {
    if |b| > 0 && b[0] == Sep then b
    else if a == [] || a[|a| - 1] == Sep then a + b
    else a + [Sep] + b
  }

  /**
   * A relative name goes directly below the directory: the result is the
   * directory, at most one separator, then the name, and a separator always
   * precedes the name when the directory is not empty.
   */
  lemma JoinDirectlyBelow(a: string, b: string)
    requires |b| == 0 || b[0] != Sep
    ensures var r := Join(a, b);
            && |a| + |b| <= |r| <= |a| + 1 + |b|
            && r[..|a|] == a && r[|r| - |b|..] == b
            && (a != [] ==> r[|r| - |b| - 1] == Sep)
  {
    var r := Join(a, b);
    if a == [] || a[|a| - 1] == Sep {
      assert r == a + b;
    } else {
      assert r == a + [Sep] + b;
    }
  }

  /** Joining a plain file name onto a directory: the name is the basename of the result. */
  lemma JoinBasename(a: string, b: string)
    requires Sep !in b
    ensures Basename(Join(a, b)) == b
  {
    var r := Join(a, b);
    var prefix := if a == [] || a[|a| - 1] == Sep then a else a + [Sep];
    assert r == prefix + b;
    var i := RFind(r, Sep);
    forall k | |prefix| <= k < |r| ensures r[k] != Sep {
      assert r[k] == b[k - |prefix|];
    }
    if prefix != [] {
      assert r[|prefix| - 1] == Sep;
    }
    assert i == |prefix| - 1;
  }

  /**
   * A final component made of a stem that holds some non-dot character and a
   * suffix that is one dot followed by no dot splits exactly there.
   */
  lemma SplitAtFinalDot(stem: string, ext: string)
    requires Sep !in stem && Sep !in ext
    requires !AllDots(stem)
    requires |ext| > 0 && ext[0] == ExtSep && ExtSep !in ext[1..]
    ensures SplitExt(stem + ext) == (stem, ext)
  {
    var p := stem + ext;
    forall k | 0 <= k < |p| ensures p[k] != Sep {
      if k < |stem| { assert p[k] == stem[k]; } else { assert p[k] == ext[k - |stem|]; }
    }
    assert RFind(p, Sep) == -1;
    forall k | |stem| < k < |p| ensures p[k] != ExtSep {
      assert p[k] == ext[1..][k - |stem| - 1];
    }
    assert p[|stem|] == ExtSep;
    assert RFind(p, ExtSep) == |stem|;
    assert p[0..|stem|] == stem;
    assert p[|stem|..] == ext;
  }

  /**
   * Appending text that has no dot and no separator to a component that has
   * no extension leaves it without one.
   */
  lemma NoExtensionKept(p: string, tail: string)
    requires Sep !in p && Sep !in tail && ExtSep !in tail
    requires SplitExt(p).1 == []
    ensures SplitExt(p + tail).1 == []
  {
    var q := p + tail;
    forall k | |p| <= k < |q| ensures q[k] != ExtSep && q[k] != Sep {
      assert q[k] == tail[k - |p|];
    }
    forall k | 0 <= k < |p| ensures q[k] == p[k] && q[k] != Sep {
    }
    assert RFind(q, Sep) == -1 == RFind(p, Sep);
    var i, i' := RFind(p, ExtSep), RFind(q, ExtSep);
    if i >= 0 {
      assert q[i] == ExtSep;
    }
    if i' >= 0 {
      assert q[i'] == p[i'];
    }
    assert i' == i;
    if i >= 0 {
      assert q[0..i] == p[0..i];
    }
  }

  /** A character absent from both halves is absent from their concatenation. */
  lemma NotInConcat(c: char, a: string, b: string)
    requires c !in a && c !in b
    ensures c !in a + b
  {
    forall i | 0 <= i < |a + b| ensures (a + b)[i] != c {
      if i < |a| { assert (a + b)[i] == a[i]; } else { assert (a + b)[i] == b[i - |a|]; }
    }
  }
}
