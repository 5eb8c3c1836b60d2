/** Hint labels: `generateHintString` writes an index as a base-26 numeral over
    the letters A..Z, with 'A' as the digit zero and the most significant digit
    first. It is plain positional notation (26 is "BA", not "AA"), so the labels
    of a session are unique but a label can be a prefix of another ("B" of
    "BA"). */
module Labels {

  /** The `chars` table of `generateHintString`. */
  const Alphabet: string := "ABCDEFGHIJKLMNOPQRSTUVWXYZ"

  predicate IsLetter(c: char) {
    'A' <= c <= 'Z'
  }

  predicate AllLetters(s: string) {
    forall k :: 0 <= k < |s| ==> IsLetter(s[k])
  }

  /** The numerals `generateHintString` can produce: non-empty, over A..Z,
      and without a leading zero digit unless the numeral is "A" itself. */
  predicate Canonical(s: string) {
    |s| >= 1 && AllLetters(s) && (|s| > 1 ==> s[0] != 'A')
  }

  /** The value of one digit. */
  function DigitValue(c: char): (d: nat)
    requires IsLetter(c)
    ensures d < 26
  {
    c as int - 'A' as int
  }

  /** The table holds the 26 letters in order, so entry `d` is the digit with
      value `d`. */
  lemma AlphabetDigits(d: nat)
    requires d < 26
    ensures |Alphabet| == 26 && IsLetter(Alphabet[d]) && DigitValue(Alphabet[d]) == d
  {
    assert Alphabet == seq(26, i requires 0 <= i < 26 => ('A' as int + i) as char);
  }

  /** The label of index `i`: one pass of the do-while loop emits the digit
      `i % 26` in front of what follows, and the loop goes on while `i / 26`
      is non-zero. */
  function Label(i: nat): (r: string)
    ensures Canonical(r)
    ensures |r| == 1 <==> i < 26
    decreases i
  {
    AlphabetDigits(i % 26);
    if i < 26 then [Alphabet[i]]
    else
      AlphabetDigits(i / 26 % 26);
      Label(i / 26) + [Alphabet[i % 26]]
  }

  function Pow26(n: nat): (p: nat)
    ensures p >= 1
  {
    if n == 0 then 1 else 26 * Pow26(n - 1)
  }

  /** The number a string of letters denotes in base 26, most significant
      digit first. */
  function Value(s: string): nat
    requires AllLetters(s)
    decreases |s|
  {
    if s == [] then 0 else Value(s[..|s| - 1]) * 26 + DigitValue(s[|s| - 1])
  }

  /** Reading a label back gives its index. */
  lemma {:induction false} ValueOfLabel(i: nat)
    ensures Value(Label(i)) == i
    decreases i
  {
    var r := Label(i);
    AlphabetDigits(i % 26);
    assert r[..|r| - 1] == if i < 26 then [] else Label(i / 26);
    if i >= 26 {
      ValueOfLabel(i / 26);
    }
  }

  /** Different indices never share a label. */
  lemma LabelInjective(i: nat, j: nat)
    requires Label(i) == Label(j)
    ensures i == j
  {
    ValueOfLabel(i);
    ValueOfLabel(j);
  }

  /** A numeral made of zero digits only has value zero, and conversely. */
  lemma {:induction false} ValueZero(s: string)
    requires AllLetters(s)
    ensures Value(s) == 0 <==> forall k :: 0 <= k < |s| ==> s[k] == 'A'
    decreases |s|
  {
    if s != [] {
      var init := s[..|s| - 1];
      ValueZero(init);
      if Value(s) == 0 {
        forall k | 0 <= k < |s| ensures s[k] == 'A' {
          if k < |s| - 1 { assert s[k] == init[k]; }
        }
      }
      if forall k :: 0 <= k < |s| ==> s[k] == 'A' {
        forall k | 0 <= k < |init| ensures init[k] == 'A' {
          assert init[k] == s[k];
        }
      }
    }
  }

  /** Every canonical numeral is a label: the labels are exactly the
      canonical numerals, and `Label` and `Value` are inverse bijections
      between them and the natural numbers. */
  lemma {:induction false} LabelOfValue(s: string)
    requires Canonical(s)
    ensures Label(Value(s)) == s
    decreases |s|
  {
    if |s| == 1 {
      LabelOfDigit(s);
    } else {
      var init, c := s[..|s| - 1], s[|s| - 1];
      assert s == init + [c];
      InitOfCanonical(s);
      LabelOfValue(init);
      LabelOfSnoc(init, c);
    }
  }

  /** A one-letter numeral is the label of its digit. */
  lemma LabelOfDigit(s: string)
    requires |s| == 1 && IsLetter(s[0])
    ensures Value(s) < 26 && Label(Value(s)) == s
  {
    var d := DigitValue(s[0]);
    AlphabetDigits(d);
    assert s[..0] == [];
    assert Value(s) == d;
    assert s == [Alphabet[d]];
  }

  /** Appending a letter to a label of non-zero value gives the label of the
      extended numeral. */
  lemma LabelOfSnoc(init: string, c: char)
    requires AllLetters(init) && Value(init) >= 1 && Label(Value(init)) == init
    requires IsLetter(c)
    ensures AllLetters(init + [c]) && Label(Value(init + [c])) == init + [c]
  {
    var s := init + [c];
    var d := DigitValue(c);
    AlphabetDigits(d);
    assert c == Alphabet[d];
    assert s[..|s| - 1] == init;
    var j := Value(init);
    assert Value(s) == 26 * j + d;
    LabelChild(j, d);
  }

  /** Dropping the last digit of a canonical numeral of two or more digits
      leaves a canonical numeral of non-zero value. */
  lemma InitOfCanonical(s: string)
    requires Canonical(s) && |s| > 1
    ensures Canonical(s[..|s| - 1]) && Value(s[..|s| - 1]) >= 1
  {
    var init := s[..|s| - 1];
    assert init[0] == s[0];
    ValueZero(init);
  }

  /** Reading a concatenation: the digits of `a` are shifted by the length of
      `b`. */
  lemma {:induction false} ValueAppend(a: string, b: string)
    requires AllLetters(a) && AllLetters(b)
    ensures AllLetters(a + b) && Value(a + b) == Value(a) * Pow26(|b|) + Value(b)
    decreases |b|
  {
    AllLettersAppend(a, b);
    if b != [] {
      var ab := a + b;
      var b' := b[..|b| - 1];
      assert ab[..|ab| - 1] == a + b';
      assert AllLetters(b') by {
        assert forall k :: 0 <= k < |b'| ==> b'[k] == b[k];
      }
      ValueAppend(a, b');
      var va, p, d := Value(a), Pow26(|b'|), DigitValue(b[|b| - 1]);
      calc {
        Value(ab);
        Value(a + b') * 26 + d;
        (va * p + Value(b')) * 26 + d;
        { ShiftDigit(va, p, Value(b'), d); }
        va * (26 * p) + (Value(b') * 26 + d);
        va * Pow26(|b|) + Value(b);
      }
    } else {
      assert a + b == a;
    }
  }

  /** One more digit in the tail multiplies the head's weight by 26. */
  lemma ShiftDigit(va: nat, p: nat, vb: nat, d: nat)
    ensures (va * p + vb) * 26 + d == va * (26 * p) + (vb * 26 + d)
  {
  }

  lemma AllLettersAppend(a: string, b: string)
    requires AllLetters(a) && AllLetters(b)
    ensures AllLetters(a + b)
  {
    forall k | 0 <= k < |a + b| ensures IsLetter((a + b)[k]) {
      if k < |a| {
        assert (a + b)[k] == a[k];
      } else {
        assert (a + b)[k] == b[k - |a|];
      }
    }
  }

  /** Appending a digit to a label (other than "A") gives the label of the
      index 26 times as large plus that digit: "B" + "A" is the label of 26. */
  lemma LabelChild(j: nat, d: nat)
    requires 0 < j && d < 26
    ensures Label(26 * j + d) == Label(j) + [Alphabet[d]]
  {
    var i := 26 * j + d;
    assert i / 26 == j && i % 26 == d;
  }

  /** The label of j (j > 0) is a proper prefix of the label of 26 * j. */
  lemma LabelPrefixOfChild(j: nat)
    requires 0 < j
    ensures Label(j) <= Label(26 * j) && Label(j) != Label(26 * j)
  {
    var i := 26 * j;
    assert i / 26 == j && i % 26 == 0;
    assert Label(i) == Label(j) + [Alphabet[0]];
  }

  /** A label that strictly extends the label of `j > 0` belongs to an index
      of at least `26 * j`. */
  lemma ExtensionBound(j: nat, k: nat)
    requires 0 < j
    requires Label(j) <= Label(k) && Label(j) != Label(k)
    ensures 26 * j <= k
  {
    var lj, lk := Label(j), Label(k);
    var t := lk[|lj|..];
    assert lk == lj + t;
    ValueAppend(lj, t);
    ValueOfLabel(j);
    ValueOfLabel(k);
    PowAtLeast26(|t|);
    MulAtLeast(j, Pow26(|t|), 26);
  }

  lemma PowAtLeast26(n: nat)
    requires n >= 1
    ensures Pow26(n) >= 26
  {
    assert Pow26(n) == 26 * Pow26(n - 1);
  }

  lemma MulAtLeast(a: nat, b: nat, c: nat)
    requires b >= c
    ensures a * b >= a * c
  {
    assert a * b - a * c == a * (b - c);
  }

  /** A non-empty prefix of a canonical numeral is canonical. */
  lemma PrefixCanonical(l: string, p: string)
    requires Canonical(l) && 1 <= |p| && p <= l
    ensures Canonical(p)
  {
    assert p[0] == l[0];
    assert forall k :: 0 <= k < |p| ==> p[k] == l[k];
  }

  /** Every non-empty prefix `p` of the label of `j` is itself the label of an
      index no larger than `j`, and of `j` only when `p` is the whole label. */
  lemma PrefixOfLabel(j: nat, p: string)
    requires 1 <= |p| && p <= Label(j)
    ensures Canonical(p) && Label(Value(p)) == p && Value(p) <= j
    ensures Value(p) == j <==> p == Label(j)
  {
    var l := Label(j);
    PrefixCanonical(l, p);
    LabelOfValue(p);
    var t := l[|p|..];
    assert l == p + t;
    assert AllLetters(t) by {
      assert forall k :: 0 <= k < |t| ==> t[k] == l[|p| + k];
    }
    ValueAppend(p, t);
    ValueOfLabel(j);
    MulAtLeast(Value(p), Pow26(|t|), 1);
  }

  /** What is left to write once the quotient is `n`: nothing when it is
      zero, the label of `n` otherwise. */
  function LabelOrEmpty(n: nat): string {
    if n == 0 then "" else Label(n)
  }

  /** One pass of the loop: the label of `n` is what is left for `n / 26`
      followed by the digit `n % 26`. */
  lemma LabelStep(n: nat)
    ensures Label(n) == LabelOrEmpty(n / 26) + [Alphabet[n % 26]]
  {
    AlphabetDigits(n % 26);
  }

  /** One pass keeps what is left to write, followed by what is written,
      equal to the whole label. */
  lemma PassKeepsLabel(n: nat, hint: string)
    requires n > 0
    ensures LabelOrEmpty(n) + hint == LabelOrEmpty(n / 26) + ([Alphabet[n % 26]] + hint)
  {
    LabelStep(n);
  }

  /** `generateHintString`, with its do-while loop: the first pass always
      runs, later passes run while the quotient is non-zero. */
  method GenerateHintString(index: nat) returns (hint: string)
    ensures hint == Label(index)
  {
    var n := index;
    hint := "";
    LabelStep(n);
    hint := [Alphabet[n % 26]] + hint;
    n := n / 26;
    while n > 0
      invariant Label(index) == LabelOrEmpty(n) + hint
      decreases n
    {
      PassKeepsLabel(n, hint);
      hint := [Alphabet[n % 26]] + hint;
      n := n / 26;
    }
  }

  /** Known values: the first and last one-letter labels, the first
      two-letter ones, the last two-letter one and the first three-letter one. */
  lemma LabelExamples()
    ensures Label(0) == "A" && Label(25) == "Z"
    ensures Label(26) == "BA" && Label(27) == "BB"
    ensures Label(675) == "ZZ" && Label(676) == "BAA"
  {
    AlphabetDigits(0);
    AlphabetDigits(1);
    AlphabetDigits(25);
    LabelChild(1, 0);
    LabelChild(1, 1);
    LabelChild(25, 25);
    LabelChild(26, 0);
  }
}
