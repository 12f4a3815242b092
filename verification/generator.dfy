/** The pseudo-random password generator: a seeded recurrence indexing a fixed alphabet. */
module Generator {

  /** The number of characters a generated password is drawn from. */
  const Size: nat := 73

  const Uppers: string := "ABCDEFGHIJKLMNOPQRSTUVWXYZ"
  const Lowers: string := "abcdefghijklmnopqrstuvwxyz"
  const Digits: string := "0123456789"
  const Symbols: string := ")(*&^%$#@!~"

  /** The alphabet as the canister's byte literal spells it: upper case, lower case, digits, then eleven symbols. */
  const Charset: string := Uppers + Lowers + Digits + Symbols

  /** Position `j` of the alphabet, computed from the four runs it is made of. */
  function CharAt(j: int): char
    requires 0 <= j < Size
  {
    if j < 26 then ('A' as int + j) as char
    else if j < 52 then ('a' as int + (j - 26)) as char
    else if j < 62 then ('0' as int + (j - 52)) as char
    else Symbols[j - 62]
  }

  /** `c` is one of the alphabet's characters. */
  ghost predicate InAlphabet(c: char)
  {
    exists j :: 0 <= j < Size && CharAt(j) == c
  }

  /** Machine words are `usize`, 32 bits wide on the wasm32 target. */
  const WORD: nat := 0x1_0000_0000

  /** The seed is the current time in nanoseconds, truncated to a machine word. */
  function InitialSeed(now: nat): (seed: nat)
    ensures seed < WORD
    ensures now < WORD ==> seed == now
    ensures (now - seed) % WORD == 0
  {
    now % WORD
  }

  /**
   * One mixing step of the recurrence with wrap-around on every operation:
   * `seed + (seed * 1103515245 + 12345)`, all modulo the word size.
   */
  function Mix(seed: nat): (next: nat)
    ensures next < WORD
  {
    (seed + (seed * 1103515245 + 12345) % WORD) % WORD
  }

  /**
   * The characters emitted from `seed` onwards: each round replaces the seed by
   * `mix(seed)` reduced modulo the alphabet size and emits the character at that index.
   */
  function Chars(seed: nat, length: nat, mix: nat -> nat): (s: string)
    ensures |s| == length
    ensures forall i :: 0 <= i < |s| ==> InAlphabet(s[i])
    decreases length
  {
    if length == 0 then []
    else
      var next := mix(seed) % Size;
      var c := CharAt(next % Size);
      assert InAlphabet(c);
      [c] + Chars(next, length - 1, mix)
  }

  /** `CharAt` reads the alphabet as spelled out, position by position. */
  lemma CharAtIndexesCharset()
    ensures |Charset| == Size
    ensures forall j :: 0 <= j < Size ==> Charset[j] == CharAt(j)
  {
  }

  /** A character is in the alphabet exactly when it occurs in the spelled-out charset. */
  lemma InAlphabetIffInCharset(c: char)
    ensures InAlphabet(c) <==> c in Charset
  {
    CharAtIndexesCharset();
    if c in Charset {
      var j :| 0 <= j < |Charset| && Charset[j] == c;
      assert CharAt(j) == c;
    }
  }

  /** A string drawn from the alphabet has every character in the spelled-out charset. */
  lemma DrawnFromCharset(s: string)
    requires forall i :: 0 <= i < |s| ==> InAlphabet(s[i])
    ensures forall i :: 0 <= i < |s| ==> s[i] in Charset
  {
  }

  /** Every alphabet character is ASCII, so it takes one byte in UTF-8. */
  lemma AlphabetIsAscii(c: char)
    requires InAlphabet(c)
    ensures (c as int) < 0x80
  {
  }

  /** The loop of the generator: builds the password one character at a time, left to right. */
  method GenerateChars(now: nat, length: nat) returns (password: string)
    ensures |password| == length
    ensures forall i :: 0 <= i < |password| ==> InAlphabet(password[i])
    ensures password == Chars(InitialSeed(now), length, Mix)
  {
    password := [];
    var seed: nat := InitialSeed(now);
    var k := 0;
    while k < length
      invariant 0 <= k <= length
      invariant password + Chars(seed, length - k, Mix) == Chars(InitialSeed(now), length, Mix)
    {
      ghost var before := password;
      ghost var rest := Chars(seed, length - k, Mix);
      seed := Mix(seed) % Size;
      var idx := seed % Size;
      assert rest == [CharAt(idx)] + Chars(seed, length - k - 1, Mix);
      password := password + [CharAt(idx)];
      assert password + Chars(seed, length - k - 1, Mix) == before + rest;
      k := k + 1;
    }
    assert password + Chars(seed, 0, Mix) == password;
  }

  /**
   * The output is a fixed stream determined by the seed alone: a shorter password
   * generated at the same clock reading is a prefix of a longer one.
   */
  lemma {:induction false} ShorterIsPrefix(seed: nat, m: nat, n: nat, mix: nat -> nat)
    requires m <= n
    ensures Chars(seed, m, mix) == Chars(seed, n, mix)[..m]
    decreases m
  {
    if m > 0 {
      var next := mix(seed) % Size;
      ShorterIsPrefix(next, m - 1, n - 1, mix);
    }
  }
}
