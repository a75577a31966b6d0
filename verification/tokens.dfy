/** The token classification loop of the entry point: each whitespace-
    separated word is an integer token if it parses as an i64, the plus
    token if it is exactly "+", and otherwise aborts with "Unkown word!". */
module Tokens {
  import opened Wrappers
  import opened Literals

  /** `Token::Int` and `Token::PLUS`. */
  datatype Token = IntToken(i: i64) | PlusToken

  datatype LexError = UnknownWord(word: string)

  predicate IsDigit(c: char) {
    '0' <= c <= '9'
  }

  predicate AllDigits(s: string) {
    forall k :: 0 <= k < |s| ==> IsDigit(s[k])
  }

  /** The number a run of decimal digits denotes (most significant first). */
  function DigitsValue(s: string): nat
    requires AllDigits(s)
  {
    if |s| == 0 then 0
    else DigitsValue(s[..|s| - 1]) * 10 + (s[|s| - 1] as int - '0' as int)
  }

  /** `str::parse::<i64>`: an optional `+` or `-`, then at least one ASCII
      digit and nothing else, denoting a value within the i64 range. */
  function ParseI64(w: string): (r: Option<i64>)
    ensures r.Some? ==> |w| > 0 && w != "+" && w != "-"
    ensures r.Some? && w[0] == '-' ==> r.value <= 0
    ensures r.Some? && w[0] != '-' ==> r.value >= 0
  {
    if |w| == 0 then None
    else
      var signed := w[0] == '+' || w[0] == '-';
      var digits := if signed then w[1..] else w;
      if |digits| == 0 || !AllDigits(digits) then None
      else
        var magnitude: int := DigitsValue(digits);
        var v: int := if w[0] == '-' then -magnitude else magnitude;
        if InI64(v) then Some(v) else None
  }

  function DigitChar(d: nat): (c: char)
    requires d < 10
    ensures IsDigit(c) && c as int - '0' as int == d
  {
    ('0' as int + d) as char
  }

  /** The decimal rendering of a natural number, without leading zeros. */
  function NatDigits(m: nat): (s: string)
    ensures |s| > 0 && AllDigits(s)
    ensures DigitsValue(s) == m
    ensures s[0] == '0' ==> m == 0
    decreases m
  {
    if m < 10 then [DigitChar(m)]
    else
      var prefix := NatDigits(m / 10);
      var s := prefix + [DigitChar(m % 10)];
      assert s[..|s| - 1] == prefix;
      s
  }

  /** The decimal rendering of an integer, as `{}` formats an i64. */
  function Decimal(x: int): (s: string)
    ensures |s| > 0
  {
    if x < 0 then "-" + NatDigits(-x) else NatDigits(x)
  }

  /** Every i64, written in decimal, parses back to itself. */
  lemma DecimalParses(x: i64)
    ensures ParseI64(Decimal(x)) == Some(x)
  {
    var w := Decimal(x);
    if x < 0 {
      assert w[1..] == NatDigits(-(x as int));
    } else {
      assert w == NatDigits(x);
    }
  }

  /*** Which words `parse::<i64>` accepts, and what they denote ***/

  /** The run of digits without its leading zeros, keeping at least one. */
  function StripZeros(s: string): (r: string)
    ensures |s| > 0 ==> |r| > 0
    ensures AllDigits(s) ==> AllDigits(r)
    decreases |s|
  {
    if |s| > 1 && s[0] == '0' then StripZeros(s[1..]) else s
  }

  /** The canonical spelling of a signed decimal word: no `+` sign, no
      leading zeros, and no `-` in front of zero. */
  function Canonical(w: string): string {
    if |w| == 0 then w
    else
      var neg := w[0] == '-';
      var digits := StripZeros(if w[0] == '+' || neg then w[1..] else w);
      if neg && digits != "0" then "-" + digits else digits
  }

  /** `z` zero digits. */
  function Zeros(z: nat): (s: string)
    ensures |s| == z && AllDigits(s)
  {
    if z == 0 then "" else "0" + Zeros(z - 1)
  }

  lemma {:induction false} LeadingZero(q: string)
    requires AllDigits(q)
    ensures AllDigits("0" + q) && DigitsValue("0" + q) == DigitsValue(q)
    decreases |q|
  {
    if |q| == 0 {
      assert ("0" + q)[..0] == "";
    } else {
      var p := q[..|q| - 1];
      LeadingZero(p);
      assert ("0" + q)[..|q|] == "0" + p;
    }
  }

  lemma {:induction false} LeadingNonzero(x: char, q: string)
    requires IsDigit(x) && x != '0' && AllDigits(q)
    ensures AllDigits([x] + q) && DigitsValue([x] + q) > 0
    decreases |q|
  {
    if |q| == 0 {
      assert ([x] + q)[..0] == "";
    } else {
      LeadingNonzero(x, q[..|q| - 1]);
      assert ([x] + q)[..|q|] == [x] + q[..|q| - 1];
    }
  }

  /** Appending a digit keeps the stripped prefix, unless the prefix denotes zero. */
  lemma {:induction false} StripAppend(p: string, c: char)
    requires AllDigits(p) && IsDigit(c)
    ensures StripZeros(p + [c]) == if DigitsValue(p) == 0 then [c] else StripZeros(p) + [c]
    decreases |p|
  {
    if |p| > 0 {
      var q := p[1..];
      assert p == [p[0]] + q;
      assert (p + [c])[1..] == q + [c];
      if p[0] == '0' {
        LeadingZero(q);
        assert p == "0" + q;
        StripAppend(q, c);
      } else {
        LeadingNonzero(p[0], q);
      }
    }
  }

  /** A run of digits without its leading zeros is the decimal rendering of
      the number it denotes. */
  lemma {:induction false} StripIsDecimal(s: string)
    requires |s| > 0 && AllDigits(s)
    ensures StripZeros(s) == NatDigits(DigitsValue(s))
    decreases |s|
  {
    var p := s[..|s| - 1];
    var c := s[|s| - 1];
    assert s == p + [c];
    StripAppend(p, c);
    var d := c as int - '0' as int;
    assert DigitChar(d) == c;
    if DigitsValue(p) != 0 {
      StripIsDecimal(p);
      var m := DigitsValue(s);
      assert m / 10 == DigitsValue(p) && m % 10 == d;
    }
  }

  /** Every accepted word is the decimal rendering of its value, up to a
      `+` sign, leading zeros and a `-` in front of zero. */
  lemma ParsedIsDecimal(w: string)
    requires ParseI64(w).Some?
    ensures Canonical(w) == Decimal(ParseI64(w).value)
  {
    var signed := w[0] == '+' || w[0] == '-';
    StripIsDecimal(if signed then w[1..] else w);
  }

  lemma {:induction false} ZerosValue(z: nat, s: string)
    requires AllDigits(s)
    ensures AllDigits(Zeros(z) + s) && DigitsValue(Zeros(z) + s) == DigitsValue(s)
    decreases z
  {
    if z == 0 {
      assert Zeros(z) + s == s;
    } else {
      ZerosValue(z - 1, s);
      LeadingZero(Zeros(z - 1) + s);
      assert Zeros(z) + s == "0" + (Zeros(z - 1) + s);
    }
  }

  /** A run of digits parses to the number it denotes; so does the run
      behind a `+`, and the run behind a `-` parses to its negation. */
  lemma ParseDigits(digits: string)
    requires |digits| > 0 && AllDigits(digits) && InI64(DigitsValue(digits))
    ensures ParseI64(digits) == Some(DigitsValue(digits))
  {
    assert IsDigit(digits[0]);
  }

  lemma ParsePlus(digits: string)
    requires |digits| > 0 && AllDigits(digits) && InI64(DigitsValue(digits))
    ensures ParseI64("+" + digits) == Some(DigitsValue(digits))
  {
    var w := "+" + digits;
    assert w[0] == '+' && w[1..] == digits;
  }

  lemma ParseMinus(digits: string)
    requires |digits| > 0 && AllDigits(digits) && InI64(-(DigitsValue(digits) as int))
    ensures ParseI64("-" + digits) == Some(-(DigitsValue(digits) as int))
  {
    var w := "-" + digits;
    assert w[0] == '-' && w[1..] == digits;
  }

  /** Conversely, every decimal rendering of an i64 is accepted with any
      number of leading zeros, a `+` sign on a value that is not negative,
      and a `-` sign on one that is not positive. */
  lemma PaddedParses(sign: string, z: nat, x: i64)
    requires sign == "" || sign == "+" || sign == "-"
    requires sign == "-" ==> x <= 0
    requires sign != "-" ==> x >= 0
    ensures ParseI64(sign + (Zeros(z) + NatDigits(Abs(x)))) == Some(x)
  {
    var n := NatDigits(Abs(x));
    ZerosValue(z, n);
    var digits := Zeros(z) + n;
    if sign == "" {
      assert sign + digits == digits;
      ParseDigits(digits);
    } else if sign == "+" {
      ParsePlus(digits);
    } else {
      ParseMinus(digits);
    }
  }

  /** The classification of one word. */
  function Classify(word: string): (r: Result<Token, LexError>)
    ensures r == Success(PlusToken) <==> word == "+"
    ensures r.Success? && r.value.IntToken? <==> ParseI64(word).Some?
    ensures r.Success? && r.value.IntToken? ==> ParseI64(word) == Some(r.value.i)
    ensures r.Failure? ==> r.error == UnknownWord(word)
  {
    var n := ParseI64(word);
    if n.Some? then Success(IntToken(n.value))
    else if word == "+" then Success(PlusToken)
    else Failure(UnknownWord(word))
  }

  /** The classification loop: every word in order, aborting at the first
      word that is neither an integer nor "+". */
  function Tokenize(words: seq<string>): (r: Result<seq<Token>, LexError>)
    ensures r.Success? <==> forall k :: 0 <= k < |words| ==> Classify(words[k]).Success?
    ensures r.Success? ==> |r.value| == |words|
    ensures r.Success? ==> forall k :: 0 <= k < |words| ==> Classify(words[k]) == Success(r.value[k])
    ensures r.Failure? ==> exists k ::
      && 0 <= k < |words|
      && r.error == UnknownWord(words[k])
      && Classify(words[k]).Failure?
      && forall j :: 0 <= j < k ==> Classify(words[j]).Success?
  {
    if |words| == 0 then Success([])
    else
      var t :- Classify(words[0]);
      var rest := Tokenize(words[1..]);
      if rest.Failure? then
        assert exists k :: && 0 <= k < |words| && rest.error == UnknownWord(words[k])
                           && Classify(words[k]).Failure?
                           && forall j :: 0 <= j < k ==> Classify(words[j]).Success? by {
          var k :| && 0 <= k < |words[1..]| && rest.error == UnknownWord(words[1..][k])
                   && Classify(words[1..][k]).Failure?
                   && forall j :: 0 <= j < k ==> Classify(words[1..][j]).Success?;
          assert forall j :: 1 <= j < k + 1 ==> words[j] == words[1..][j - 1];
        }
        Failure(rest.error)
      else
        assert forall k :: 1 <= k < |words| ==> words[k] == words[1..][k - 1];
        Success([t] + rest.value)
  }
}
