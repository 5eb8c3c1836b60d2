/** The string operations the key handler relies on: `toUpperCase`,
    `toLowerCase`, `startsWith` (Dafny's prefix relation `<=`) and
    `includes`. Case mapping is modelled on the ASCII letters only. */
module Text {
  import opened Labels

  predicate IsLowerLetter(c: char) {
    'a' <= c <= 'z'
  }

  function LowerChar(c: char): (r: char)
    ensures IsLetter(c) ==> IsLowerLetter(r) && r as int == c as int + 32
    ensures !IsLetter(c) ==> r == c
  {
    if IsLetter(c) then (c as int + 32) as char else c
  }

  function UpperChar(c: char): (r: char)
    ensures IsLowerLetter(c) ==> IsLetter(r) && r as int == c as int - 32
    ensures !IsLowerLetter(c) ==> r == c
  {
    if IsLowerLetter(c) then (c as int - 32) as char else c
  }

  /** `String.prototype.toLowerCase`. */
  function Lower(s: string): (r: string)
    ensures |r| == |s|
    ensures forall k :: 0 <= k < |r| ==> !IsLetter(r[k])
  {
    seq(|s|, k requires 0 <= k < |s| => LowerChar(s[k]))
  }

  /** `String.prototype.toUpperCase`. */
  function Upper(s: string): (r: string)
    ensures |r| == |s|
    ensures forall k :: 0 <= k < |r| ==> !IsLowerLetter(r[k])
  {
    seq(|s|, k requires 0 <= k < |s| => UpperChar(s[k]))
  }

  /** `String.prototype.includes`: `needle` occurs somewhere in `hay`. */
  predicate Contains(hay: string, needle: string)
    decreases |hay|
  {
    needle <= hay || (hay != [] && Contains(hay[1..], needle))
  }

  /** `needle` occurs in `hay` at position `i`. */
  predicate OccursAt(hay: string, needle: string, i: int) {
    0 <= i <= |hay| - |needle| && hay[i..i + |needle|] == needle
  }

  /** `includes` is the textbook substring relation. */
  lemma ContainsIffOccurs(hay: string, needle: string)
    ensures Contains(hay, needle) <==> exists i :: OccursAt(hay, needle, i)
  {
    if Contains(hay, needle) {
      var i := ContainsOccurs(hay, needle);
    }
    if exists i :: OccursAt(hay, needle, i) {
      var i :| OccursAt(hay, needle, i);
      OccursContains(hay, needle, i);
    }
  }

  /** Where `includes` holds, the search text occurs at some position `i`. */
  lemma {:induction false} ContainsOccurs(hay: string, needle: string) returns (i: int)
    requires Contains(hay, needle)
    ensures OccursAt(hay, needle, i)
    decreases |hay|
  {
    if needle <= hay {
      i := 0;
    } else {
      var tail := hay[1..];
      var i' := ContainsOccurs(tail, needle);
      i := i' + 1;
      forall k | 0 <= k < |needle|
        ensures hay[i..i + |needle|][k] == needle[k]
      {
        assert hay[i + k] == tail[i' + k] == needle[k];
      }
    }
  }

  /** An occurrence at position `i` makes `includes` hold. */
  lemma {:induction false} OccursContains(hay: string, needle: string, i: int)
    requires OccursAt(hay, needle, i)
    ensures Contains(hay, needle)
    decreases i
  {
    if i > 0 {
      assert hay[1..][i - 1..i - 1 + |needle|] == hay[i..i + |needle|];
      OccursContains(hay[1..], needle, i - 1);
    }
  }

  /** A text that contains `p + q` contains `p`: extending the search text can
      only shrink the set of texts it matches. */
  lemma {:induction false} ContainsLonger(hay: string, p: string, q: string)
    requires Contains(hay, p + q)
    ensures Contains(hay, p)
    decreases |hay|
  {
    if !(p + q <= hay) {
      ContainsLonger(hay[1..], p, q);
    }
  }

  /** A text without capitals contains no search text that has a capital. */
  lemma {:induction false} NoCapitalNoMatch(hay: string, needle: string, k: nat)
    requires forall i :: 0 <= i < |hay| ==> !IsLetter(hay[i])
    requires k < |needle| && IsLetter(needle[k])
    ensures !Contains(hay, needle)
    decreases |hay|
  {
    if k < |hay| {
      assert !IsLetter(hay[k]);
    }
    if hay != [] {
      NoCapitalNoMatch(hay[1..], needle, k);
    }
  }

  /** A key is a label letter (its upper-cased form is one of A..Z) exactly
      when it is a single ASCII letter of either case. */
  lemma UpperIsLetter(key: string)
    ensures (|Upper(key)| == 1 && IsLetter(Upper(key)[0])) <==>
      (|key| == 1 && (IsLetter(key[0]) || IsLowerLetter(key[0])))
  {
  }

  /** Lower-casing a capital and upper-casing the result gives the capital
      back. */
  lemma UpperOfLower(c: char)
    requires IsLetter(c)
    ensures Upper([LowerChar(c)]) == [c]
  {
  }
}
