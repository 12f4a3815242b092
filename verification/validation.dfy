/** Password strength validation: five character-class rules checked in a fixed order. */
module Validation {
  import opened Types

  /** Number of bytes the UTF-8 encoding of `c` occupies. */
  function Utf8Width(c: char): (w: nat)
    ensures 1 <= w <= 4
    ensures w == 1 <==> (c as int) < 0x80
  {
    var n := c as int;
    if n < 0x80 then 1
    else if n < 0x800 then 2
    else if n < 0x1_0000 then 3
    else 4
  }

  /** Length of `s` in bytes of its UTF-8 encoding, which is what a Rust `String` reports as its length. */
  function ByteLen(s: string): (n: nat)
    ensures |s| <= n <= 4 * |s|
  {
    if |s| == 0 then 0 else Utf8Width(s[0]) + ByteLen(s[1..])
  }

  predicate IsUpper(c: char) { 'A' <= c <= 'Z' }
  predicate IsLower(c: char) { 'a' <= c <= 'z' }
  predicate IsDigit(c: char) { '0' <= c <= '9' }

  const Specials: string := "!@#$%^&*()_+-=[]{}|;:'\",.<>?/"

  predicate IsSpecial(c: char) { c in Specials }

  /** Whether some character of `s` satisfies `p`, scanning from the front. */
  function Any(s: string, p: char -> bool): (b: bool)
    ensures b <==> exists i :: 0 <= i < |s| && p(s[i])
  {
    if |s| == 0 then false
    else if p(s[0]) then true
    else
      var b := Any(s[1..], p);
      assert forall i :: 1 <= i < |s| ==> s[i] == s[1..][i - 1];
      b
  }

  /** The five rules, in the order in which they are checked. */
  datatype Rule = MinLength | Uppercase | Lowercase | Digit | Special

  const Rules: seq<Rule> := [MinLength, Uppercase, Lowercase, Digit, Special]

  /** What it means for `v` to satisfy `rule`, stated independently of the scanning code. */
  ghost predicate Holds(rule: Rule, v: string)
  {
    match rule
    case MinLength => ByteLen(v) >= 8
    case Uppercase => exists i :: 0 <= i < |v| && IsUpper(v[i])
    case Lowercase => exists i :: 0 <= i < |v| && IsLower(v[i])
    case Digit => exists i :: 0 <= i < |v| && IsDigit(v[i])
    case Special => exists i :: 0 <= i < |v| && IsSpecial(v[i])
  }

  function Message(rule: Rule): string
  {
    match rule
    case MinLength => "Password must be at least 8 characters long."
    case Uppercase => "Password must contain at least one uppercase letter."
    case Lowercase => "Password must contain at least one lowercase letter."
    case Digit => "Password must contain at least one number."
    case Special => "Password must contain at least one special character."
  }

  const ValidMsg: string := "Password is valid."

  /** The rule at position `j` is the first one `v` breaks. */
  ghost predicate FirstBroken(v: string, j: int)
  {
    && 0 <= j < |Rules|
    && !Holds(Rules[j], v)
    && forall i :: 0 <= i < j ==> Holds(Rules[i], v)
  }

  /**
   * Checks the rules in order and reports the message of the first one broken;
   * succeeds exactly when every rule holds.
   */
  function ValidatePassword(payload: PasswordPayload): (r: Result<string>)
    ensures r.Ok? <==> forall j :: 0 <= j < |Rules| ==> Holds(Rules[j], payload.value)
    ensures r.Ok? ==> r.value == ValidMsg
    ensures r.Err? ==> exists j :: FirstBroken(payload.value, j) && r.error == Message(Rules[j])
  {
    var v := payload.value;
    if ByteLen(v) < 8 then
      assert FirstBroken(v, 0);
      Err(Message(MinLength))
    else if !Any(v, IsUpper) then
      assert FirstBroken(v, 1);
      Err(Message(Uppercase))
    else if !Any(v, IsLower) then
      assert FirstBroken(v, 2);
      Err(Message(Lowercase))
    else if !Any(v, IsDigit) then
      assert FirstBroken(v, 3);
      Err(Message(Digit))
    else if !Any(v, IsSpecial) then
      assert FirstBroken(v, 4);
      Err(Message(Special))
    else
      Ok(ValidMsg)
  }

  /** Distinct rules have distinct messages, so the error names the broken rule unambiguously. */
  lemma MessagesIdentifyRule(a: Rule, b: Rule)
    requires Message(a) == Message(b)
    ensures a == b
  {
  }

  /** At most one rule can be the first broken one. */
  lemma FirstBrokenUnique(v: string, j: int, k: int)
    requires FirstBroken(v, j) && FirstBroken(v, k)
    ensures j == k
  {
  }

  /** A value of plain ASCII characters has as many bytes as characters. */
  lemma {:induction false} AsciiByteLen(s: string)
    requires forall i :: 0 <= i < |s| ==> (s[i] as int) < 0x80
    ensures ByteLen(s) == |s|
  {
    if |s| > 0 {
      assert forall i :: 0 <= i < |s[1..]| ==> s[1..][i] == s[i + 1];
      AsciiByteLen(s[1..]);
    }
  }

  /** The length rule counts bytes: one non-ASCII character makes the byte count exceed the character count. */
  lemma {:induction false} NonAsciiByteLen(s: string, k: int)
    requires 0 <= k < |s| && (s[k] as int) >= 0x80
    ensures ByteLen(s) > |s|
  {
    if k > 0 {
      assert s[1..][k - 1] == s[k];
      NonAsciiByteLen(s[1..], k - 1);
    }
  }

  /** Letters and digits are never special characters. */
  lemma AlphanumericIsNotSpecial(c: char)
    requires IsUpper(c) || IsLower(c) || IsDigit(c)
    ensures !IsSpecial(c)
  {
  }

  lemma ShortFailsOnLength()
    ensures ValidatePassword(PasswordPayload("short")) == Err(Message(MinLength))
  {
    AsciiByteLen("short");
  }

  lemma NoSpecialFailsOnSpecial()
    ensures ValidatePassword(PasswordPayload("Abcdefgh1")) == Err(Message(Special))
  {
    var v := "Abcdefgh1";
    AsciiByteLen(v);
    assert IsUpper(v[0]) && IsLower(v[1]) && IsDigit(v[8]);
    assert Any(v, IsUpper) && Any(v, IsLower) && Any(v, IsDigit);
    NoSpecialIn(v);
    assert !Any(v, IsSpecial);
  }

  lemma NoSpecialIn(v: string)
    requires v == "Abcdefgh1"
    ensures forall i :: 0 <= i < |v| ==> !IsSpecial(v[i])
  {
  }

  lemma StrongIsValid()
    ensures ValidatePassword(PasswordPayload("Abcdefg1!")) == Ok(ValidMsg)
  {
    var v := "Abcdefg1!";
    AsciiByteLen(v);
    assert IsUpper(v[0]) && IsLower(v[1]) && IsDigit(v[7]) && IsSpecial(v[8]);
    assert Any(v, IsUpper) && Any(v, IsLower) && Any(v, IsDigit) && Any(v, IsSpecial);
  }

  /** Six characters pass the length rule when two of them take two bytes each. */
  lemma SixCharactersCanBeLongEnough()
    ensures ValidatePassword(PasswordPayload("Ab1!\U{e9}\U{e9}")) == Ok(ValidMsg)
  {
    var v := "Ab1!\U{e9}\U{e9}";
    assert |v| == 6;
    assert ByteLen(v) == 1 + ByteLen(v[1..]);
    assert ByteLen(v[1..]) == 1 + ByteLen(v[2..]);
    assert ByteLen(v[2..]) == 1 + ByteLen(v[3..]);
    assert ByteLen(v[3..]) == 1 + ByteLen(v[4..]);
    assert ByteLen(v[4..]) == 2 + ByteLen(v[5..]);
    assert ByteLen(v[5..]) == 2 + ByteLen(v[6..]);
    assert IsUpper(v[0]) && IsLower(v[1]) && IsDigit(v[2]) && IsSpecial(v[3]);
  }
}
