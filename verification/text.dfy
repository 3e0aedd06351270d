/** The string operations the task store and the validators rely on:
    ASCII lower-casing, substring search and `Array.prototype.join`.
    A `string` is a sequence of characters, one per Unicode scalar value;
    this agrees with JavaScript's UTF-16 code units only for text inside the
    Basic Multilingual Plane. */
module Text {

  predicate IsUpper(c: char) { 'A' <= c <= 'Z' }

  /** `toLowerCase` on one character, restricted to the ASCII letters. */
  function LowerChar(c: char): (r: char)
    ensures !IsUpper(r)
    ensures !IsUpper(c) ==> r == c
    ensures IsUpper(c) ==> r as int - c as int == 'a' as int - 'A' as int
  {
    if IsUpper(c) then (c as int - 'A' as int + 'a' as int) as char else c
  }

  /** `toLowerCase` on a string: every character lowered, nothing else changes. */
  function Lower(s: string): (r: string)
    ensures |r| == |s|
    ensures forall i :: 0 <= i < |s| ==> r[i] == LowerChar(s[i])
  {
    seq(|s|, i requires 0 <= i < |s| => LowerChar(s[i]))
  }

  /** `needle` occurs in `hay` starting at position `i`. */
  predicate OccursAt(hay: string, needle: string, i: nat)
  {
    i + |needle| <= |hay| && hay[i..i + |needle|] == needle
  }

  lemma OccursShift(hay: string, needle: string)
    requires |hay| > 0
    ensures forall i: nat {:trigger OccursAt(hay, needle, i + 1)} ::
              OccursAt(hay[1..], needle, i) <==> OccursAt(hay, needle, i + 1)
  {
    forall i: nat
      ensures OccursAt(hay[1..], needle, i) <==> OccursAt(hay, needle, i + 1)
    {
      if i + |needle| <= |hay| - 1 {
        assert hay[1..][i..i + |needle|] == hay[i + 1..i + 1 + |needle|];
      }
    }
  }

  /** When `needle` is not at the front of a non-empty `hay`, it occurs in
      `hay` exactly when it occurs in the tail. */
  lemma OccursInTail(hay: string, needle: string)
    requires |hay| > 0 && !OccursAt(hay, needle, 0)
    ensures (exists i: nat :: OccursAt(hay, needle, i)) <==> (exists i: nat :: OccursAt(hay[1..], needle, i))
  {
    OccursShift(hay, needle);
    if k: nat :| OccursAt(hay, needle, k) {
      assert k > 0;
      assert OccursAt(hay[1..], needle, k - 1);
    }
    if k: nat :| OccursAt(hay[1..], needle, k) {
      assert OccursAt(hay, needle, k + 1);
    }
  }

  /** `String.prototype.includes`: true exactly when `needle` occurs somewhere
      in `hay` (the empty needle occurs everywhere). */
  function Includes(hay: string, needle: string): (r: bool)
    ensures r <==> exists i: nat :: OccursAt(hay, needle, i)
    decreases |hay|
  {
    if OccursAt(hay, needle, 0) then
      true
    else if |hay| <= |needle| then
      assert forall i: nat :: !OccursAt(hay, needle, i);
      false
    else
      OccursInTail(hay, needle);
      Includes(hay[1..], needle)
  }

  /** `Array.prototype.join(sep)` on an array of strings. */
  function Join(parts: seq<string>, sep: string): string
    decreases |parts|
  {
    if |parts| == 0 then ""
    else if |parts| == 1 then parts[0]
    else parts[0] + sep + Join(parts[1..], sep)
  }

  /** Where the `i`-th part starts in `Join(parts, sep)`: the lengths of the
      parts before it, each followed by one separator. */
  function PartOffset(parts: seq<string>, sep: string, i: nat): nat
    requires i <= |parts|
  {
    if i == 0 then 0 else PartOffset(parts, sep, i - 1) + |parts[i - 1]| + |sep|
  }

  lemma {:induction false} PartOffsetTail(parts: seq<string>, sep: string, i: nat)
    requires 0 < i <= |parts|
    ensures PartOffset(parts, sep, i) == |parts[0]| + |sep| + PartOffset(parts[1..], sep, i - 1)
  {
    if i > 1 {
      PartOffsetTail(parts, sep, i - 1);
    }
  }

  /** A joined string is as long as its parts plus one separator between
      each neighbouring pair. */
  lemma {:induction false} JoinLength(parts: seq<string>, sep: string)
    requires |parts| > 0
    ensures |Join(parts, sep)| == PartOffset(parts, sep, |parts| - 1) + |parts[|parts| - 1]|
  {
    if |parts| > 1 {
      JoinLength(parts[1..], sep);
      PartOffsetTail(parts, sep, |parts| - 1);
    }
  }

  /** Part `i` sits where part `i - 1` of the tail sits, shifted by the
      first part and a separator. */
  lemma JoinPartStep(parts: seq<string>, sep: string, i: nat)
    requires 0 < i < |parts|
    requires PartOffset(parts[1..], sep, i - 1) + |parts[i]| <= |Join(parts[1..], sep)|
    requires Join(parts[1..], sep)[PartOffset(parts[1..], sep, i - 1)..PartOffset(parts[1..], sep, i - 1) + |parts[i]|] == parts[i]
    ensures PartOffset(parts, sep, i) + |parts[i]| <= |Join(parts, sep)|
    ensures Join(parts, sep)[PartOffset(parts, sep, i)..PartOffset(parts, sep, i) + |parts[i]|] == parts[i]
  {
    var head := parts[0] + sep;
    var j := Join(parts[1..], sep);
    assert Join(parts, sep) == head + j;
    PartOffsetTail(parts, sep, i);
    var o := PartOffset(parts[1..], sep, i - 1);
    SliceOfAppend(head, j, |head| + o, |head| + o + |parts[i]|);
  }

  /** The `i`-th part of a joined string sits at its offset. */
  lemma {:induction false} JoinPartAt(parts: seq<string>, sep: string, i: nat)
    requires i < |parts|
    ensures PartOffset(parts, sep, i) + |parts[i]| <= |Join(parts, sep)|
    ensures Join(parts, sep)[PartOffset(parts, sep, i)..PartOffset(parts, sep, i) + |parts[i]|] == parts[i]
  {
    if i > 0 {
      JoinPartAt(parts[1..], sep, i - 1);
      assert parts[1..][i - 1] == parts[i];
      JoinPartStep(parts, sep, i);
    } else if |parts| > 1 {
      var head := parts[0] + sep;
      assert Join(parts, sep) == head + Join(parts[1..], sep);
      assert (head + Join(parts[1..], sep))[..|parts[0]|] == parts[0];
    }
  }

  /** A slice that lies wholly in the second half of a concatenation. */
  lemma SliceOfAppend<T>(a: seq<T>, b: seq<T>, lo: int, hi: int)
    requires |a| <= lo <= hi <= |a| + |b|
    ensures (a + b)[lo..hi] == b[lo - |a|..hi - |a|]
  {
  }

  /** The separator after part `i` sits where the separator after part
      `i - 1` of the tail sits, shifted by the first part and a separator. */
  lemma JoinSeparatorStep(parts: seq<string>, sep: string, i: nat)
    requires 0 < i && i + 1 < |parts|
    requires PartOffset(parts[1..], sep, i) <= |Join(parts[1..], sep)|
    requires Join(parts[1..], sep)[PartOffset(parts[1..], sep, i - 1) + |parts[i]|..PartOffset(parts[1..], sep, i)] == sep
    ensures PartOffset(parts, sep, i + 1) <= |Join(parts, sep)|
    ensures Join(parts, sep)[PartOffset(parts, sep, i) + |parts[i]|..PartOffset(parts, sep, i + 1)] == sep
  {
    var head := parts[0] + sep;
    var j := Join(parts[1..], sep);
    assert Join(parts, sep) == head + j;
    PartOffsetTail(parts, sep, i);
    PartOffsetTail(parts, sep, i + 1);
    var o := PartOffset(parts[1..], sep, i - 1);
    var o' := PartOffset(parts[1..], sep, i);
    SliceOfAppend(head, j, |head| + o + |parts[i]|, |head| + o');
  }

  /** Between part `i` and part `i + 1` the joined string holds exactly one
      separator. */
  lemma {:induction false} JoinSeparatorAt(parts: seq<string>, sep: string, i: nat)
    requires i + 1 < |parts|
    ensures PartOffset(parts, sep, i + 1) <= |Join(parts, sep)|
    ensures Join(parts, sep)[PartOffset(parts, sep, i) + |parts[i]|..PartOffset(parts, sep, i + 1)] == sep
  {
    if i > 0 {
      JoinSeparatorAt(parts[1..], sep, i - 1);
      assert parts[1..][i - 1] == parts[i];
      JoinSeparatorStep(parts, sep, i);
    } else {
      var head := parts[0] + sep;
      assert Join(parts, sep) == head + Join(parts[1..], sep);
      assert (head + Join(parts[1..], sep))[|parts[0]|..|head|] == sep;
    }
  }
}
