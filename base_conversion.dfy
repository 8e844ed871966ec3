/** Positional base-62 encoding of an integer, most significant digit first,
    over the alphabet 0-9, A-Z, a-z (`BaseConversion.convertToBase62String`). */
module BaseConversion {

  /** The 62 symbols, in digit order: the source's one literal, written as
      its three ranges. */
  const Base62: string := "0123456789" + "ABCDEFGHIJKLMNOPQRSTUVWXYZ" + "abcdefghijklmnopqrstuvwxyz"

  /** The symbol for digit `d`, computed from the three character ranges. */
  function Symbol(d: nat): (c: char)
    requires d < 62
    ensures IsBase62Char(c)
  {
    if d < 10 then ('0' as int + d) as char
    else if d < 36 then ('A' as int + (d - 10)) as char
    else ('a' as int + (d - 36)) as char
  }

  predicate IsBase62Char(c: char) {
    '0' <= c <= '9' || 'A' <= c <= 'Z' || 'a' <= c <= 'z'
  }

  /** The digit a symbol stands for: its index in the alphabet. */
  function DigitValue(c: char): (d: nat)
    requires IsBase62Char(c)
    ensures d < 62 && Symbol(d) == c
  {
    if c <= '9' then c as int - '0' as int
    else if c <= 'Z' then c as int - 'A' as int + 10
    else c as int - 'a' as int + 36
  }

  /** `Symbol` is the source's alphabet: digit `d` is `base62.charAt(d)`. */
  lemma SymbolAt(d: nat)
    requires d < 62
    ensures Base62[d] == Symbol(d)
  {
  }

  /** The three ranges are exactly the characters of the alphabet. */
  lemma AlphabetMembership(c: char)
    ensures c in Base62 <==> IsBase62Char(c)
  {
    if c in Base62 {
      var i :| 0 <= i < |Base62| && Base62[i] == c;
      SymbolAt(i);
    }
    if IsBase62Char(c) {
      SymbolAt(DigitValue(c));
    }
  }

  lemma DigitValueOfSymbol(d: nat)
    requires d < 62
    ensures IsBase62Char(Symbol(d)) && DigitValue(Symbol(d)) == d
  {
  }

  /** The digits the loop writes for `n`: empty for 0, otherwise the digits
      of `n / 62` followed by the symbol of `n % 62`. */
  function Digits(n: nat): string
  {
    if n == 0 then [] else Digits(n / 62) + [Symbol(n % 62)]
  }

  /** What `convertToBase62String` returns for `number`: "0" for zero, the
      empty string for a negative number (the loop never runs), and the
      base-62 digits otherwise. */
  function Encode(number: int): string
  {
    if number == 0 then "0"
    else if number < 0 then []
    else Digits(number)
  }

  /** The loop of the source: prepend the symbol of `number % 62`, then
      divide `number` by the alphabet's length, while `number` is positive. */
  method ConvertToBase62String(number: int) returns (result: string)
    ensures result == Encode(number)
    ensures number == 0 ==> result == "0"
    ensures number < 0 ==> result == ""
  {
    result := "";
    if number == 0 {
      SymbolAt(0);
      return [Base62[0]];
    }
    var n := number;
    while n > 0
      invariant number < 0 ==> n == number && result == []
      invariant number > 0 ==> 0 <= n && Digits(n) + result == Digits(number)
    {
      SymbolAt(n % 62);
      result := [Base62[n % 62]] + result;
      n := n / |Base62|;
    }
  }

  /** Every character is one of the 62 symbols. */
  predicate AllBase62(s: string) {
    forall i :: 0 <= i < |s| ==> IsBase62Char(s[i])
  }

  /** Reads `s` most significant digit first, each symbol's alphabet index
      being its digit; the inverse of `Encode` on non-negative numbers. */
  function Decode(s: string): (n: nat)
    requires AllBase62(s)
  {
    if s == [] then 0 else Decode(s[..|s| - 1]) * 62 + DigitValue(s[|s| - 1])
  }

  /** A canonical numeral: non-empty, alphabet symbols only, and no leading
      '0' except for the numeral "0" itself. */
  predicate Canonical(s: string) {
    s != [] && AllBase62(s) && (s[0] == '0' ==> s == "0")
  }

  function Pow62(k: nat): (p: nat)
    ensures p >= 1
  {
    if k == 0 then 1 else 62 * Pow62(k - 1)
  }

  /** Euclidean division by 62 is determined by quotient and remainder. */
  lemma DivMod62(n: int, q: int, r: int)
    requires n == q * 62 + r && 0 <= r < 62
    ensures n / 62 == q && n % 62 == r
  {
    assert 62 * (n / 62 - q) == r - n % 62;
  }

  lemma {:induction false} DigitsAllBase62(n: nat)
    ensures AllBase62(Digits(n))
  {
    if n > 0 {
      DigitsAllBase62(n / 62);
      DigitValueOfSymbol(n % 62);
    }
  }

  /** Every non-negative number gives a non-empty string of alphabet symbols. */
  lemma {:induction false} EncodeWellFormed(number: int)
    requires number >= 0
    ensures Encode(number) != [] && AllBase62(Encode(number))
    ensures forall i :: 0 <= i < |Encode(number)| ==> Encode(number)[i] in Base62
  {
    var s := Encode(number);
    if number > 0 {
      DigitsAllBase62(number);
      assert Digits(number) == Digits(number / 62) + [Symbol(number % 62)];
    }
    forall i | 0 <= i < |s| ensures s[i] in Base62 {
      AlphabetMembership(s[i]);
    }
  }

  /** Positive numbers are written without a leading zero. */
  lemma {:induction false} NoLeadingZero(number: int)
    requires number > 0
    ensures Encode(number)[0] != '0'
  {
    if number < 62 {
      SingleDigit(number);
      assert Symbol(number) != '0';
    } else {
      NoLeadingZero(number / 62);
      assert Digits(number) == Digits(number / 62) + [Symbol(number % 62)];
    }
  }

  /** The numbers 1..61 are written as their single symbol. */
  lemma SingleDigit(number: int)
    requires 0 < number < 62
    ensures Encode(number) == [Symbol(number)]
  {
    DivMod62(number, 0, number);
    assert Digits(number) == Digits(0) + [Symbol(number)];
  }

  /** The output length is the number of base-62 digits of the input:
      62^(len-1) <= number < 62^len. */
  lemma {:induction false} EncodeLength(number: int)
    requires number > 0
    ensures var len := |Encode(number)|;
      len >= 1 && Pow62(len - 1) <= number < Pow62(len)
  {
    var q := number / 62;
    if q == 0 {
      assert Digits(number) == [Symbol(number % 62)];
    } else {
      EncodeLength(q);
      var k := |Digits(q)|;
      assert |Digits(number)| == k + 1;
      assert Pow62(k - 1) <= q < Pow62(k);
      assert number == 62 * q + number % 62;
      assert 62 * Pow62(k - 1) <= 62 * q;
      assert 62 * q + 62 <= 62 * Pow62(k);
    }
  }

  /** Round trip: decoding the output gives back the input. */
  lemma {:induction false} DecodeDigits(n: nat)
    ensures AllBase62(Digits(n)) && Decode(Digits(n)) == n
  {
    DigitsAllBase62(n);
    if n > 0 {
      var s := Digits(n);
      DecodeDigits(n / 62);
      assert s[..|s| - 1] == Digits(n / 62);
      DigitValueOfSymbol(n % 62);
    }
  }

  lemma {:induction false} RoundTrip(number: int)
    requires number >= 0
    ensures AllBase62(Encode(number)) && Decode(Encode(number)) == number
  {
    if number == 0 {
      assert Encode(0)[..0] == [];
    } else {
      DecodeDigits(number);
    }
  }

  /** Distinct non-negative numbers give distinct strings. */
  lemma Injective(a: int, b: int)
    requires a >= 0 && b >= 0
    requires Encode(a) == Encode(b)
    ensures a == b
  {
    RoundTrip(a);
    RoundTrip(b);
  }

  /** The outputs for non-negative numbers are exactly the canonical numerals. */
  lemma {:induction false} EncodeCanonical(number: int)
    requires number >= 0
    ensures Canonical(Encode(number))
  {
    EncodeWellFormed(number);
    if number > 0 {
      NoLeadingZero(number);
    }
  }

  lemma {:induction false} DecodePositive(s: string)
    requires s != [] && AllBase62(s) && s[0] != '0'
    ensures Decode(s) > 0
  {
    if |s| == 1 {
      assert s[..0] == [];
    } else {
      var p := s[..|s| - 1];
      assert p[0] == s[0];
      DecodePositive(p);
    }
  }

  /** Appending a digit to the numeral of a positive q gives the numeral of
      q * 62 + v. */
  lemma AppendDigit(q: nat, v: nat)
    requires q > 0 && v < 62
    ensures Digits(q * 62 + v) == Digits(q) + [Symbol(v)]
  {
    DivMod62(q * 62 + v, q, v);
  }

  lemma DecodeAppend(p: string, c: char)
    requires AllBase62(p) && IsBase62Char(c)
    ensures AllBase62(p + [c]) && Decode(p + [c]) == Decode(p) * 62 + DigitValue(c)
  {
    var s := p + [c];
    assert s[..|s| - 1] == p;
  }

  /** The inductive step of `EncodeDecode`: one more digit after a
      canonical numeral with no leading zero. */
  lemma AppendSymbol(p: string, c: char)
    requires Canonical(p) && p[0] != '0' && IsBase62Char(c)
    requires Encode(Decode(p)) == p
    ensures AllBase62(p + [c]) && Encode(Decode(p + [c])) == p + [c]
  {
    DecodeAppend(p, c);
    var q, v := Decode(p), DigitValue(c);
    DecodePositive(p);
    assert Digits(q) == p;
    AppendDigit(q, v);
    assert Encode(q * 62 + v) == Digits(q * 62 + v);
  }

  /** The base case of `EncodeDecode`: a single symbol. */
  lemma EncodeDecodeOne(c: char)
    requires IsBase62Char(c)
    ensures AllBase62([c]) && Encode(Decode([c])) == [c]
  {
    var v := DigitValue(c);
    assert [c][..0] == [];
    assert Decode([c]) == v;
    if v == 0 {
      assert c == '0';
    } else {
      SingleDigit(v);
    }
  }

  /** Encoding the value of a canonical numeral gives the numeral back, so
      `Encode` is a bijection between the naturals and the canonical numerals. */
  lemma {:induction false} EncodeDecode(s: string)
    requires Canonical(s)
    ensures Encode(Decode(s)) == s
  {
    var p, c := s[..|s| - 1], s[|s| - 1];
    assert s == p + [c];
    if p == [] {
      EncodeDecodeOne(c);
    } else {
      assert p[0] == s[0];
      assert Canonical(p);
      EncodeDecode(p);
      AppendSymbol(p, c);
    }
  }
}
