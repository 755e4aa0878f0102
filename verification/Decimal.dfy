/** Decimal integers: `uintToString`, `valueToString` and the integer half of `Reader::decodeNumber`. */
module Decimal {
  import opened Bytes

  const MAX_INT: int := 0x7FFF_FFFF
  const MIN_LARGEST_INT: int := -0x8000_0000_0000_0000
  const MAX_LARGEST_INT: int := 0x7FFF_FFFF_FFFF_FFFF
  const MAX_LARGEST_UINT: int := 0xFFFF_FFFF_FFFF_FFFF
  // 3 * sizeof(LargestUInt) + 1
  const UINT_TO_STRING_BUFFER_SIZE: nat := 25

  /** The canonical decimal numeral of n, most significant digit first. */
  function Digits(n: nat): (t: Text)
    ensures t != [] && AllDigits(t)
  {
    if n < 10 then [ZERO + n] else Digits(n / 10) + [ZERO + n % 10]
  }

  predicate IsDigit(b: Byte) { ZERO <= b <= ZERO + 9 }

  predicate AllDigits(t: Text) { forall b | b in t :: IsDigit(b) }

  /** The number a digit string denotes; the empty string denotes zero. */
  function Magnitude(t: Text): (m: nat)
    requires AllDigits(t)
  {
    if t == [] then 0
    else
      assert IsDigit(t[|t| - 1]);
      Magnitude(t[..|t| - 1]) * 10 + (t[|t| - 1] - ZERO)
  }

  /** No leading zero, except in the numeral of zero itself. */
  predicate Canonical(t: Text) { t != [] && AllDigits(t) && (t[0] == ZERO ==> |t| == 1) }

  lemma {:induction false} MagnitudeOfDigits(n: nat)
    ensures Magnitude(Digits(n)) == n && Canonical(Digits(n)) && (n > 0 ==> Digits(n)[0] != ZERO)
  {
    if n >= 10 {
      MagnitudeOfDigits(n / 10);
      var t := Digits(n);
      assert t[..|t| - 1] == Digits(n / 10);
    } else {
      var t := Digits(n);
      assert t[..|t| - 1] == [];
    }
  }

  lemma {:induction false} DigitsOfMagnitude(t: Text)
    requires Canonical(t)
    ensures Digits(Magnitude(t)) == t
  {
    var init := t[..|t| - 1];
    if |t| == 1 {
      assert init == [] && IsDigit(t[0]) && Magnitude(t) == t[0] - ZERO;
    } else {
      DigitsOfMagnitude(init);
      MagnitudeOfDigits(Magnitude(init));
      assert init == Digits(Magnitude(init)) && init[0] == t[0] && |Digits(0)| == 1;
      var m, d := Magnitude(init), t[|t| - 1] - ZERO;
      assert IsDigit(t[|t| - 1]) && Magnitude(t) == m * 10 + d;
      assert Magnitude(t) / 10 == m && Magnitude(t) % 10 == d;
      assert t == init + [t[|t| - 1]];
    }
  }

  function Pow10(k: nat): (p: nat)
    ensures p >= 1
  {
    if k == 0 then 1 else 10 * Pow10(k - 1)
  }

  lemma {:induction false} DigitsLength(n: nat, k: nat)
    requires k >= 1 && n < Pow10(k)
    ensures |Digits(n)| <= k
  {
    if n >= 10 { DigitsLength(n / 10, k - 1); }
  }

  lemma Below64Bits(n: nat)
    requires n <= MAX_LARGEST_UINT
    ensures |Digits(n)| <= 20
  {
    assert Pow10(5) == 100000;
    assert Pow10(10) == 100000 * Pow10(5);
    assert Pow10(15) == 100000 * Pow10(10);
    assert Pow10(20) == 100000 * Pow10(15);
    DigitsLength(n, 20);
  }

  /**
   * `uintToString`: writes a terminating NUL and then the digits backwards from the cursor `current`,
   * which the caller guarantees to have 25 free bytes in front of it.
   */
  method UintToString(buffer: array<Byte>, current: nat, value: nat) returns (cursor: nat)
    requires value <= MAX_LARGEST_UINT
    requires UINT_TO_STRING_BUFFER_SIZE <= current <= buffer.Length
    modifies buffer
    ensures cursor + |Digits(value)| + 1 == current
    ensures buffer[cursor..current] == Digits(value) + [0]
    ensures buffer[..cursor] == old(buffer[..cursor]) && buffer[current..] == old(buffer[current..])
    ensures cursor >= current - 21
  {
    hide Digits;
    Below64Bits(value);
    cursor := current - 1;
    buffer[cursor] := 0;
    var v := value;
    var last := false;
    while !last
      invariant cursor < current
      invariant last ==> buffer[cursor..current] == Digits(value) + [0]
      invariant !last ==> 0 <= v <= value && Digits(v) + buffer[cursor..current] == Digits(value) + [0]
      invariant buffer[..cursor] == old(buffer[..cursor]) && buffer[current..] == old(buffer[current..])
      decreases !last, v
    {
      ghost var was := buffer[cursor..current];
      assert |Digits(v) + was| == |Digits(value) + [0]|;
      LowestDigit(v, was);
      cursor := cursor - 1;
      buffer[cursor] := v % 10 + ZERO;
      assert buffer[cursor..current] == [v % 10 + ZERO] + was;
      v := v / 10;
      last := v == 0;
    }
    assert |buffer[cursor..current]| == |Digits(value)| + 1;
  }

  /** The lowest digit is the last one of the numeral. */
  lemma LowestDigit(v: nat, was: Text)
    ensures Digits(v) + was == (if v / 10 == 0 then [] else Digits(v / 10)) + ([v % 10 + ZERO] + was)
  {
  }

  /** The std::string made from a C string: everything before the first NUL. */
  function CString(t: Text): Text
  {
    if t == [] || t[0] == 0 then [] else [t[0]] + CString(t[1..])
  }

  lemma {:induction false} CStringStops(t: Text, tail: Text)
    requires 0 !in t
    ensures CString(t + [0] + tail) == t
  {
    var whole := t + [0] + tail;
    if t != [] {
      CStringStops(t[1..], tail);
      assert whole[1..] == t[1..] + [0] + tail;
    }
  }

  /** The text of a signed or unsigned integer value. */
  function IntText(value: int): (t: Text)
    ensures t != [] && 0 !in t
  {
    if value < 0 then [MINUS] + Digits(-value) else Digits(value)
  }

  /** `*--current = '-'`. */
  method PutMinus(buffer: array<Byte>, current: nat) returns (cursor: nat)
    requires 0 < current <= buffer.Length
    modifies buffer
    ensures cursor == current - 1
    ensures buffer[cursor..] == [MINUS] + old(buffer[current..])
  {
    cursor := current - 1;
    buffer[cursor] := MINUS;
    assert buffer[cursor..] == [buffer[cursor]] + buffer[current..];
  }

  /** `assert(current >= buffer); return current;`, the text being NUL-terminated in the buffer. */
  method FromBuffer(buffer: array<Byte>, current: int, ghost t: Text) returns (s: Text)
    requires 0 <= current <= buffer.Length
    requires buffer[current..] == t + [0] && 0 !in t
    ensures s == t
  {
    s := CString(buffer[current..]);
    assert t + [0] + [] == t + [0];
    CStringStops(t, []);
  }

  /** `uintToString` and then `*--current = '-'`. */
  method NegativeToString(buffer: array<Byte>, magnitude: nat) returns (cursor: nat)
    requires 0 < magnitude <= MAX_LARGEST_INT + 1 && buffer.Length == UINT_TO_STRING_BUFFER_SIZE
    modifies buffer
    ensures cursor <= buffer.Length && buffer[cursor..] == IntText(0 - magnitude) + [0]
  {
    cursor := UintToString(buffer, buffer.Length, magnitude);
    hide Digits;
    assert buffer[cursor..] == Digits(magnitude) + [0];
    cursor := PutMinus(buffer, cursor);
    assert [MINUS] + (Digits(magnitude) + [0]) == [MINUS] + Digits(magnitude) + [0];
  }

  /** `valueToString(LargestInt)`. */
  method ValueToStringSigned(value: int) returns (s: Text)
    requires MIN_LARGEST_INT <= value <= MAX_LARGEST_INT
    ensures s == IntText(value)
  {
    var buffer := new Byte[UINT_TO_STRING_BUFFER_SIZE];
    var current;
    if value == MIN_LARGEST_INT {
      current := NegativeToString(buffer, MAX_LARGEST_INT + 1);
    } else if value < 0 {
      current := NegativeToString(buffer, -value);
    } else {
      current := UintToString(buffer, buffer.Length, value);
    }
    assert buffer[current..] == IntText(value) + [0];
    s := FromBuffer(buffer, current, IntText(value));
  }

  /** `valueToString(LargestUInt)`. */
  method ValueToStringUnsigned(value: nat) returns (s: Text)
    requires value <= MAX_LARGEST_UINT
    ensures s == IntText(value)
  {
    var buffer := new Byte[UINT_TO_STRING_BUFFER_SIZE];
    var current := UintToString(buffer, buffer.Length, value);
    s := FromBuffer(buffer, current, IntText(value));
  }

  /** What `decodeNumber` makes of a number token. */
  datatype Number = Signed(i: int) | Unsigned(u: nat) | NotAnInteger

  /** The largest magnitude an integer token may have. */
  function MaxMagnitude(negative: bool): int
  {
    if negative then MAX_LARGEST_INT + 1 else MAX_LARGEST_UINT
  }

  /**
   * The reference meaning of a number token: an optional minus and digits whose magnitude
   * fits; the sign and the size choose between the two integer types.
   */
  function NumberOf(token: Text): Number
  {
    var negative := token != [] && token[0] == MINUS;
    var body := if negative then token[1..] else token;
    if !AllDigits(body) || Magnitude(body) > MaxMagnitude(negative) then NotAnInteger
    else if negative then Signed(0 - Magnitude(body))
    else if Magnitude(body) <= MAX_INT then Signed(Magnitude(body))
    else Unsigned(Magnitude(body))
  }

  lemma {:induction false} MagnitudeGrows(t: Text, k: nat)
    requires AllDigits(t) && k <= |t|
    ensures Magnitude(t[..k]) <= Magnitude(t)
    ensures k < |t| ==> Magnitude(t[..k]) * 10 + (t[k] - ZERO) <= Magnitude(t)
    ensures k + 1 < |t| ==> Magnitude(t[..k]) * 100 <= Magnitude(t)
    decreases |t| - k
  {
    if k == |t| {
      assert t[..k] == t;
    } else {
      MagnitudeGrows(t, k + 1);
      assert t[..k + 1][..k] == t[..k] && IsDigit(t[k]);
      assert Magnitude(t[..k + 1]) == Magnitude(t[..k]) * 10 + (t[k] - ZERO);
      assert k + 1 < |t| ==> IsDigit(t[k + 1]);
    }
  }

  /**
   * `Reader::decodeNumber(Token&, Value&)` up to its calls of `decodeDouble`: the accumulator
   * never passes 2^64 - 1 and the result is the reference meaning of the token.
   */
  method DecodeNumber(token: Text) returns (decoded: Number)
    requires token != []
    ensures decoded == NumberOf(token)
  {
    var current := 0;
    var isNegative := token[current] == MINUS;
    if isNegative {
      current := current + 1;
    }
    ghost var body := token[current..];
    ghost var first := current;
    var maxIntegerValue := if isNegative then MAX_LARGEST_INT + 1 else MAX_LARGEST_UINT;
    var threshold := maxIntegerValue / 10;
    var value := 0;
    assert body[..0] == [] && Magnitude([]) == 0;
    hide Magnitude, AllDigits;
    while current < |token|
      invariant first <= current <= |token|
      invariant AllDigits(body[..current - first]) && value == Magnitude(body[..current - first])
      invariant 0 <= value <= maxIntegerValue
    {
      var c := token[current];
      ghost var k := current - first;
      assert c == body[k];
      current := current + 1;
      if c < ZERO || c > ZERO + 9 {
        NotADigit(body, k);
        return NotAnInteger;
      }
      var fits;
      fits, value := NextDigit(value, c - ZERO, current == |token|, maxIntegerValue, threshold, body, k);
      if !fits {
        return NotAnInteger;
      }
    }
    assert body[..current - first] == body;
    if isNegative && value == maxIntegerValue {
      decoded := Signed(MIN_LARGEST_INT);
    } else if isNegative {
      decoded := Signed(-value);
    } else if value <= MAX_INT {
      decoded := Signed(value);
    } else {
      decoded := Unsigned(value);
    }
  }

  /** One round of the loop, behind the test for a digit: digit k of the body is added when there is room. */
  method NextDigit(value: nat, digit: nat, last: bool, maxIntegerValue: nat, threshold: nat, ghost body: Text,
          ghost k: nat)
    returns (fits: bool, next: nat)
    requires maxIntegerValue == MaxMagnitude(true) || maxIntegerValue == MaxMagnitude(false)
    requires threshold == maxIntegerValue / 10 && value <= maxIntegerValue
    requires k < |body| && AllDigits(body[..k]) && value == Magnitude(body[..k])
    requires IsDigit(body[k]) && digit == body[k] - ZERO && (last <==> k + 1 == |body|)
    ensures fits ==> AllDigits(body[..k + 1]) && next == Magnitude(body[..k + 1]) <= maxIntegerValue
    ensures !fits ==> !AllDigits(body) || Magnitude(body) > maxIntegerValue
  {
    hide Magnitude, AllDigits;
    OneMoreDigit(body, k);
    if last {
      assert body[..k + 1] == body;
    }
    fits, next := true, value;
    if value >= threshold {
      if value > threshold || !last || digit > maxIntegerValue % 10 {
        fits := false;
        return;
      }
    }
    next := value * 10 + digit;
  }

  lemma NotADigit(t: Text, k: nat)
    requires k < |t| && !IsDigit(t[k])
    ensures !AllDigits(t)
  {
  }

  /** Reading digit k multiplies by ten and adds; what was read so far bounds the whole from below. */
  lemma OneMoreDigit(t: Text, k: nat)
    requires k < |t| && AllDigits(t[..k]) && IsDigit(t[k])
    ensures AllDigits(t[..k + 1]) && Magnitude(t[..k + 1]) == Magnitude(t[..k]) * 10 + (t[k] - ZERO)
    ensures AllDigits(t) ==> Magnitude(t[..k + 1]) <= Magnitude(t)
    ensures AllDigits(t) && k + 1 < |t| ==> Magnitude(t[..k]) * 100 <= Magnitude(t)
  {
    assert t[..k + 1][..k] == t[..k];
    assert t[..k + 1] == t[..k] + [t[k]];
    if AllDigits(t) { MagnitudeGrows(t, k); }
  }

  /** Reading back what was written recovers the number, tagged by its size. */
  lemma DecodeOfIntText(value: int)
    requires MIN_LARGEST_INT <= value <= MAX_LARGEST_UINT
    ensures NumberOf(IntText(value)) == if value <= MAX_INT then Signed(value) else Unsigned(value)
  {
    if value < 0 {
      MagnitudeOfDigits(-value);
      assert IntText(value)[1..] == Digits(-value);
    } else {
      MagnitudeOfDigits(value);
      assert IsDigit(Digits(value)[0]);
    }
  }
}
