/**
 * The string and slice helpers the mediator matches type names with:
 * `strings.Contains`, `strings.Split` (with its inverse `strings.Join`),
 * "the segment after the last dot", and `slices.IndexFunc`.
 */
module MediatorNames {

  /** `strings.Contains(s, sub)`: `sub` occurs in `s` at some offset. */
  predicate Contains(s: string, sub: string)
    decreases |s|
  {
    sub <= s || (s != [] && Contains(s[1..], sub))
  }

  /** The reference meaning of containment: some offset at which `sub` lies in `s`. */
  ghost predicate OccursAt(s: string, sub: string, offset: int)
  {
    0 <= offset && offset + |sub| <= |s| && s[offset..offset + |sub|] == sub
  }

  /** The recursive `Contains` agrees with the offset definition, in both directions. */
  lemma {:induction false} ContainsIffOccurs(s: string, sub: string)
    ensures Contains(s, sub) <==> exists offset :: OccursAt(s, sub, offset)
    decreases |s|
  {
    if sub <= s {
      assert OccursAt(s, sub, 0);
    } else if s == [] {
      assert forall offset :: !OccursAt(s, sub, offset);
    } else {
      ContainsIffOccurs(s[1..], sub);
      if exists offset :: OccursAt(s[1..], sub, offset) {
        var offset :| OccursAt(s[1..], sub, offset);
        assert s[1..][offset..offset + |sub|] == s[offset + 1..offset + 1 + |sub|];
        assert OccursAt(s, sub, offset + 1);
      }
      if exists offset :: OccursAt(s, sub, offset) {
        var offset :| OccursAt(s, sub, offset);
        assert offset != 0;
        assert s[1..][offset - 1..offset - 1 + |sub|] == s[offset..offset + |sub|];
        assert OccursAt(s[1..], sub, offset - 1);
      }
    }
  }

  /** Only a string at most as long as `s` can be contained in it. */
  lemma {:induction false} ContainsShorter(s: string, sub: string)
    requires Contains(s, sub)
    ensures |sub| <= |s|
    decreases |s|
  {
    if !(sub <= s) {
      ContainsShorter(s[1..], sub);
    }
  }

  /** A string that is neither a prefix of `s` nor contained in its tail is not contained in `s`. */
  lemma NotContainedStep(s: string, sub: string)
    requires s != [] && !(sub <= s) && !Contains(s[1..], sub)
    ensures !Contains(s, sub)
  {
  }

  /** `strings.Split(s, sep)` for a one-character separator: the pieces between the separators. */
  function Split(s: string, sep: char): (parts: seq<string>)
    ensures |parts| >= 1
    ensures forall i :: 0 <= i < |parts| ==> sep !in parts[i]
    decreases |s|
  {
    if s == [] then [[]]
    else
      var rest := Split(s[1..], sep);
      if s[0] == sep then [[]] + rest
      else [[s[0]] + rest[0]] + rest[1..]
  }

  /** `strings.Join(parts, sep)`. */
  function Join(parts: seq<string>, sep: char): string
    requires |parts| >= 1
    decreases |parts|
  {
    if |parts| == 1 then parts[0] else parts[0] + [sep] + Join(parts[1..], sep)
  }

  /** Splitting loses nothing: joining the pieces back gives the original string. */
  lemma {:induction false} JoinSplit(s: string, sep: char)
    ensures Join(Split(s, sep), sep) == s
    decreases |s|
  {
    if s != [] {
      var rest := Split(s[1..], sep);
      JoinSplit(s[1..], sep);
      if s[0] == sep {
        assert ([[]] + rest)[1..] == rest;
      } else {
        var parts := [[s[0]] + rest[0]] + rest[1..];
        if |rest| == 1 {
          assert Join(parts, sep) == [s[0]] + rest[0];
        } else {
          assert parts[1..] == rest[1..];
          assert Join(rest, sep) == rest[0] + [sep] + Join(rest[1..], sep);
        }
      }
    }
  }

  /** The text after the last '.' of a type name (the whole name when it has none). */
  function LastSegment(name: string): string
  {
    var parts := Split(name, '.');
    parts[|parts| - 1]
  }

  /** Split's last piece: the whole string when there is no separator, else the suffix after the last one. */
  lemma {:induction false} LastPieceIsSuffix(s: string, sep: char)
    ensures var parts := Split(s, sep); var last := parts[|parts| - 1];
      (|parts| == 1 && last == s) ||
      (|parts| > 1 && |last| < |s| && s[|s| - |last|..] == last && s[|s| - |last| - 1] == sep)
    decreases |s|
  {
    if s != [] {
      LastPieceIsSuffix(s[1..], sep);
      var rest := Split(s[1..], sep);
      var last := rest[|rest| - 1];
      SplitLastStep(s, sep);
      if s[0] != sep && |rest| == 1 {
        assert s == [s[0]] + s[1..];
      } else {
        assert s[1..][|s| - 1 - |last|..] == s[|s| - |last|..];
      }
    }
  }

  /** How splitting one more character changes the last piece. */
  lemma SplitLastStep(s: string, sep: char)
    requires s != []
    ensures var rest := Split(s[1..], sep); var parts := Split(s, sep);
      && (s[0] == sep ==> |parts| == |rest| + 1 && parts[|parts| - 1] == rest[|rest| - 1])
      && (s[0] != sep && |rest| > 1 ==> |parts| == |rest| && parts[|parts| - 1] == rest[|rest| - 1])
      && (s[0] != sep && |rest| == 1 ==> |parts| == 1 && parts[0] == [s[0]] + rest[0])
  {
  }

  /**
   * The segment compared by the validation behavior: a suffix of the name
   * with no '.', preceded by a '.' unless it is the whole name.
   */
  lemma LastSegmentShape(name: string)
    ensures var segment := LastSegment(name);
      '.' !in segment && |segment| <= |name| && name[|name| - |segment|..] == segment &&
      (|segment| == |name| || name[|name| - |segment| - 1] == '.')
  {
    LastPieceIsSuffix(name, '.');
  }

  /** `slices.IndexFunc(s, f)`: the first position whose element satisfies `f`, or -1. */
  function IndexFunc<T>(s: seq<T>, f: T -> bool): (r: int)
    ensures -1 <= r < |s|
    ensures r >= 0 ==> f(s[r]) && forall j :: 0 <= j < r ==> !f(s[j])
    ensures r == -1 ==> forall j :: 0 <= j < |s| ==> !f(s[j])
    decreases |s|
  {
    if s == [] then -1
    else if f(s[0]) then 0
    else
      var r := IndexFunc(s[1..], f);
      if r == -1 then -1 else r + 1
  }
}
