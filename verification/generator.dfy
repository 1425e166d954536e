/**
  `generate_password`: one ASCII letter, one digit and one punctuation
  character, then `length - 3` characters from all three classes, then a
  shuffle. Randomness is made explicit: every `random.choice` becomes an index
  and `random.shuffle` becomes the swap positions its Fisher-Yates loop draws.
*/
module Generator {

  /** `string.ascii_letters` is `ascii_lowercase + ascii_uppercase`. */
  const Lowercase: string := "abcdefghijklmnopqrstuvwxyz"
  const Uppercase: string := "ABCDEFGHIJKLMNOPQRSTUVWXYZ"
  const Letters: string := Lowercase + Uppercase
  /** `string.digits` */
  const Digits: string := "0123456789"
  /** `string.punctuation` */
  const Punctuation: string := "!\"#$%&'()*+,-./:;<=>?@[\\]^_`{|}~"
  /** `letters + digits + symbols` */
  const AllChars: string := Letters + Digits + Punctuation

  predicate IsAsciiLetter(c: char) {
    ('a' <= c <= 'z') || ('A' <= c <= 'Z')
  }

  predicate IsDigit(c: char) {
    '0' <= c <= '9'
  }

  predicate IsPunctuation(c: char) {
    c in Punctuation
  }

  /** The class strings have the sizes Python gives them and contain what
      their names say. */
  lemma ClassContents()
    ensures |Letters| == 52 && |Digits| == 10 && |Punctuation| == 32 && |AllChars| == 94
    ensures forall i :: 0 <= i < |Letters| ==> IsAsciiLetter(Letters[i])
    ensures forall i :: 0 <= i < |Digits| ==> IsDigit(Digits[i])
  {
    assert forall i :: 0 <= i < |Lowercase| ==> 'a' <= Lowercase[i] <= 'z';
    assert forall i :: 0 <= i < |Uppercase| ==> 'A' <= Uppercase[i] <= 'Z';
  }

  /** The three classes are disjoint. */
  lemma ClassesDisjoint(c: char)
    ensures !(IsAsciiLetter(c) && IsDigit(c))
    ensures IsPunctuation(c) ==> !IsAsciiLetter(c) && !IsDigit(c)
  {
    assert forall i :: 0 <= i < |Punctuation| ==> !IsAsciiLetter(Punctuation[i]) && !IsDigit(Punctuation[i]);
  }

  /** Number of extra characters `range(length - 3)` asks for. */
  function FillCount(length: int): nat {
    if length > 3 then length - 3 else 0
  }

  /** The random draws of one call, in the order the source makes them:
      three mandatory picks, the filler picks, then the shuffle's swap
      positions (`swaps[k]` is the `j` drawn when `i` is `|swaps| - k`). */
  datatype Draws = Draws(letter: nat, digit: nat, symbol: nat, fill: seq<nat>, swaps: seq<nat>)

  /** Draws `random` could have produced for this `length`. */
  predicate ValidDraws(length: int, d: Draws) {
    && d.letter < |Letters| && d.digit < |Digits| && d.symbol < |Punctuation|
    && |d.fill| == FillCount(length)
    && (forall k :: 0 <= k < |d.fill| ==> d.fill[k] < |AllChars|)
    && ValidSwaps(3 + |d.fill|, d.swaps)
  }

  /** Swap positions for shuffling `n` elements: `j <= i` for `i` from
      `n - 1` down to `1`. */
  predicate ValidSwaps(n: nat, swaps: seq<nat>) {
    && n >= 1
    && |swaps| == n - 1
    && (forall k :: 0 <= k < |swaps| ==> swaps[k] <= |swaps| - k)
  }

  /** The characters chosen before the shuffle. */
  function Chosen(d: Draws): (cs: seq<char>)
    requires d.letter < |Letters| && d.digit < |Digits| && d.symbol < |Punctuation|
    requires forall k :: 0 <= k < |d.fill| ==> d.fill[k] < |AllChars|
    ensures |cs| == 3 + |d.fill|
  {
    [Letters[d.letter], Digits[d.digit], Punctuation[d.symbol]]
      + seq(|d.fill|, k requires 0 <= k < |d.fill| => AllChars[d.fill[k]])
  }

  /** The chosen characters come from the three classes, with one of each in
      the first three places. */
  lemma ChosenCoversClasses(d: Draws)
    requires d.letter < |Letters| && d.digit < |Digits| && d.symbol < |Punctuation|
    requires forall k :: 0 <= k < |d.fill| ==> d.fill[k] < |AllChars|
    ensures forall i :: 0 <= i < |Chosen(d)| ==> Chosen(d)[i] in AllChars
    ensures IsAsciiLetter(Chosen(d)[0]) && IsDigit(Chosen(d)[1]) && IsPunctuation(Chosen(d)[2])
  {
    ClassContents();
    var cs := Chosen(d);
    forall i | 0 <= i < |cs|
      ensures cs[i] in AllChars
    {
      if i >= 3 {
        assert cs[i] == AllChars[d.fill[i - 3]];
      }
    }
  }

  /** Rearranged sequences hold the same characters. */
  lemma SameElements(xs: seq<char>, ys: seq<char>)
    requires multiset(xs) == multiset(ys)
    ensures forall c :: c in xs <==> c in ys
  {
    forall c
      ensures c in xs <==> c in ys
    {
      assert c in xs <==> c in multiset(xs);
      assert c in ys <==> c in multiset(ys);
    }
  }

  lemma DrawnFrom(xs: seq<char>, ys: seq<char>, pool: string)
    requires forall i :: 0 <= i < |xs| ==> xs[i] in pool
    requires forall c :: c in ys ==> c in xs
    ensures forall i :: 0 <= i < |ys| ==> ys[i] in pool
  {
    forall i | 0 <= i < |ys|
      ensures ys[i] in pool
    {
      assert ys[i] in ys;
      var j :| 0 <= j < |xs| && xs[j] == ys[i];
    }
  }

  /** `random.shuffle`: for `i` from the last index down to 1, swap positions
      `i` and `j`. The result is a rearrangement of `xs`. */
  method Shuffle(xs: seq<char>, swaps: seq<nat>) returns (ys: seq<char>)
    requires ValidSwaps(|xs|, swaps)
    ensures |ys| == |xs|
    ensures multiset(ys) == multiset(xs)
  {
    ys := xs;
    var k := 0;
    while k < |swaps|
      invariant 0 <= k <= |swaps|
      invariant |ys| == |xs|
      invariant multiset(ys) == multiset(xs)
    {
      var i, j := |swaps| - k, swaps[k];
      ys := ys[i := ys[j]][j := ys[i]];
      k := k + 1;
    }
  }

  /** `generate_password(length)` for the given draws. For every length the
      result has `max(length, 3)` characters, all from the three classes, with
      at least one of each, and it rearranges exactly the chosen characters. */
  method Generate(length: int, d: Draws) returns (password: string)
    requires ValidDraws(length, d)
    ensures |password| == if length > 3 then length else 3
    ensures forall i :: 0 <= i < |password| ==> password[i] in AllChars
    ensures exists i :: 0 <= i < |password| && IsAsciiLetter(password[i])
    ensures exists i :: 0 <= i < |password| && IsDigit(password[i])
    ensures exists i :: 0 <= i < |password| && IsPunctuation(password[i])
    ensures multiset(password) == multiset(Chosen(d))
  {
    var chosen := [Letters[d.letter], Digits[d.digit], Punctuation[d.symbol]];
    var k := 0;
    while k < FillCount(length)
      invariant 0 <= k <= |d.fill|
      invariant chosen == Chosen(d)[..3 + k]
    {
      chosen := chosen + [AllChars[d.fill[k]]];
      k := k + 1;
    }
    assert chosen == Chosen(d);
    password := Shuffle(chosen, d.swaps);
    ChosenCoversClasses(d);
    SameElements(chosen, password);
    DrawnFrom(chosen, password, AllChars);
    assert chosen[0] in password && chosen[1] in password && chosen[2] in password;
  }
}
