/** The field validators of index.ts: `validaTelefone` and `validaCPF`, both
    total functions from a raw string to a `RetornoValidacao`. */
module Validation {

  import opened Common

  /** `RetornoValidacao`: success carrying the (possibly normalised) value, or
      an error carrying a message for the user. */
  datatype RetornoValidacao = Sucesso(valor: string) | Erro(mensagem: string)

  const MsgTelefoneInvalido := "Telefone com formato ou caracteres inválidos"
  const MsgCpfFormato := "CPF com tamanho incorreto ou caracteres inválidos"
  const MsgCpfDv := "CPF com DV inválido"

  // ---------------------------------------------------------------------------
  // The format gate: `s.trim().length !== n || /^[0-9]+$/.test(s) === false`
  // ---------------------------------------------------------------------------

  /** The characters `String.prototype.trim` strips: ECMAScript WhiteSpace and
      LineTerminator code points. */
  predicate IsJsWhitespace(c: char) {
    || c == ' '
    || '\t' <= c <= '\r'
    || c == '\U{A0}' || c == '\U{1680}'
    || '\U{2000}' <= c <= '\U{200A}'
    || c == '\U{2028}' || c == '\U{2029}' || c == '\U{202F}'
    || c == '\U{205F}' || c == '\U{3000}' || c == '\U{FEFF}'
  }

  predicate IsAsciiDigit(c: char) {
    '0' <= c <= '9'
  }

  predicate AllDigits(s: string) {
    forall i :: 0 <= i < |s| ==> IsAsciiDigit(s[i])
  }

  /** The regular expression `^[0-9]+$` (no `m` flag, so `$` is the end of input). */
  predicate MatchesDigitPattern(s: string) {
    |s| > 0 && AllDigits(s)
  }

  /** Leading whitespace removed: the longest suffix that does not start with whitespace. */
  function TrimStart(s: string): (r: string)
    ensures IsSuffixOf(r, s)
    ensures forall i :: 0 <= i < |s| - |r| ==> IsJsWhitespace(s[i])
    ensures |r| > 0 ==> !IsJsWhitespace(r[0])
  {
    if |s| > 0 && IsJsWhitespace(s[0]) then TrimStart(s[1..]) else s
  }

  /** Trailing whitespace removed: the longest prefix that does not end with whitespace. */
  function TrimEnd(s: string): (r: string)
    ensures |r| <= |s| && r == s[..|r|]
    ensures forall i :: |r| <= i < |s| ==> IsJsWhitespace(s[i])
    ensures |r| > 0 ==> !IsJsWhitespace(r[|r| - 1])
  {
    if |s| > 0 && IsJsWhitespace(s[|s| - 1]) then TrimEnd(s[..|s| - 1]) else s
  }

  /** `String.prototype.trim`. */
  function Trim(s: string): string {
    TrimEnd(TrimStart(s))
  }

  /** The guard both validators open with, for a required length `n`. */
  predicate PassesFormatGate(s: string, n: nat) {
    |Trim(s)| == n && MatchesDigitPattern(s)
  }

  /** The regular expression runs on the untrimmed string, so trimming never
      matters: the gate admits exactly the strings of `n` ASCII digits. */
  lemma FormatGateIff(s: string, n: nat)
    requires n > 0
    ensures PassesFormatGate(s, n) <==> |s| == n && AllDigits(s)
  {
  }

  // ---------------------------------------------------------------------------
  // validaTelefone
  // ---------------------------------------------------------------------------

  /** `validaTelefone`: exactly nine ASCII digits, returned unchanged. */
  function ValidaTelefone(s: string): (r: RetornoValidacao)
    ensures r.Sucesso? <==> |s| == 9 && AllDigits(s)
    ensures r.Sucesso? ==> r.valor == s
    ensures r.Erro? ==> r.mensagem == MsgTelefoneInvalido
  {
    FormatGateIff(s, 9);
    if !PassesFormatGate(s, 9) then Erro(MsgTelefoneInvalido) else Sucesso(s)
  }

  /** Re-validating an accepted phone number accepts it again with the same value. */
  lemma ValidaTelefoneIdempotent(s: string)
    ensures ValidaTelefone(s).Sucesso? ==> ValidaTelefone(ValidaTelefone(s).valor) == ValidaTelefone(s)
  {
  }

  lemma ValidaTelefoneVectors()
    ensures ValidaTelefone("123456789") == Sucesso("123456789")
    ensures ValidaTelefone("12345678") == Erro(MsgTelefoneInvalido)
    ensures ValidaTelefone(" 12345678") == Erro(MsgTelefoneInvalido)
    ensures ValidaTelefone("12345678a") == Erro(MsgTelefoneInvalido)
  {
    assert AllDigits("123456789");
    assert !AllDigits(" 12345678") by { assert !IsAsciiDigit(" 12345678"[0]); }
    assert !AllDigits("12345678a") by { assert !IsAsciiDigit("12345678a"[8]); }
  }

  // ---------------------------------------------------------------------------
  // validaCPF, as written
  // ---------------------------------------------------------------------------

  /** `cpfRecebido.split('').map(char => parseInt(char))` on a digit string. */
  function DigitsOf(s: string): seq<int> {
    seq(|s|, i requires 0 <= i < |s| => s[i] as int - '0' as int)
  }

  /** `Array.prototype.reverse`. */
  function Reverse(xs: seq<int>): (r: seq<int>)
    ensures |r| == |xs|
  {
    if |xs| == 0 then [] else Reverse(xs[1..]) + [xs[0]]
  }

  /** `xs.reduce((prev, atual, index) => atual * (2 + index) + prev, 0)`: a left
      fold, so the last element is added to the fold of the others. */
  function ReduceWeighted(xs: seq<int>): int {
    if |xs| == 0 then 0
    else xs[|xs| - 1] * (2 + (|xs| - 1)) + ReduceWeighted(xs[..|xs| - 1])
  }

  /** `11 - sum % 11`, with a value above 9 replaced by 0. Sums of digits are
      never negative, so Dafny's `%` agrees with JavaScript's here. */
  function CheckDigit(sum: int): int {
    var calculado := 11 - sum % 11;
    if calculado > 9 then 0 else calculado
  }

  /** `validaCPF`. The second pass prepends the INPUT tenth digit, as the code
      does; it is reached only when that digit equals the computed one. */
  function ValidaCPF(s: string): (r: RetornoValidacao)
    ensures r.Sucesso? <==> |s| == 11 && AllDigits(s) && CpfCheckDigitsHold(DigitsOf(s))
    ensures r.Sucesso? ==> r.valor == s
    ensures !(|s| == 11 && AllDigits(s)) ==> r == Erro(MsgCpfFormato)
    ensures |s| == 11 && AllDigits(s) && !CpfCheckDigitsHold(DigitsOf(s)) ==> r == Erro(MsgCpfDv)
  {
    FormatGateIff(s, 11);
    if !PassesFormatGate(s, 11) then Erro(MsgCpfFormato)
    else
      var d := DigitsOf(s);
      var base := Reverse(d[..9]);
      var dig1 := d[9];
      var dig2 := d[10];
      var dig1Valido := dig1 == CheckDigit(ReduceWeighted(base));
      var dig2Valido := dig1Valido && dig2 == CheckDigit(ReduceWeighted([dig1] + base));
      PassesAgreeWithRule(d);
      if !dig1Valido || !dig2Valido then Erro(MsgCpfDv) else Sucesso(s)
  }

  // ---------------------------------------------------------------------------
  // The conventional statement of the CPF rule, and its agreement with the code
  // ---------------------------------------------------------------------------

  /** `xs[0] * w + xs[1] * (w - 1) + ...`: the left-to-right weighting in which
      the CPF rule is usually stated. */
  function DescendingWeightedSum(xs: seq<int>, w: int): int {
    if |xs| == 0 then 0 else xs[0] * w + DescendingWeightedSum(xs[1..], w - 1)
  }

  /** The check digit as `(10 * sum mod 11) mod 10`, a form that needs no special case. */
  function RuleDigit(sum: int): int {
    (sum * 10) % 11 % 10
  }

  /** The two CPF check digits: the tenth digit from the first nine weighted
      10..2, the eleventh from the first ten weighted 11..2. */
  predicate CpfCheckDigitsHold(d: seq<int>)
    requires |d| == 11
  {
    && d[9] == RuleDigit(DescendingWeightedSum(d[..9], 10))
    && d[10] == RuleDigit(DescendingWeightedSum(d[..10], 11))
  }

  /** The code's "11 minus remainder, above 9 becomes 0" is the rule's digit. */
  lemma CheckDigitIsRuleDigit(sum: int)
    ensures CheckDigit(sum) == RuleDigit(sum)
  {
  }

  /** Folding the reversed sequence with weights 2, 3, ... is the forward sum
      with weights |xs| + 1 down to 2. */
  lemma {:induction false} ReduceReversed(xs: seq<int>)
    ensures ReduceWeighted(Reverse(xs)) == DescendingWeightedSum(xs, |xs| + 1)
  {
    if |xs| > 0 {
      var tail := Reverse(xs[1..]);
      var whole := tail + [xs[0]];
      assert Reverse(xs) == whole;
      assert whole[..|whole| - 1] == tail;
      assert whole[|whole| - 1] == xs[0];
      ReduceReversed(xs[1..]);
    }
  }

  lemma {:induction false} ReverseSnoc(xs: seq<int>, x: int)
    ensures Reverse(xs + [x]) == [x] + Reverse(xs)
  {
    if |xs| == 0 {
      assert xs + [x] == [x];
    } else {
      assert (xs + [x])[1..] == xs[1..] + [x];
      ReverseSnoc(xs[1..], x);
    }
  }

  /** The second pass of the code, over the input tenth digit followed by the
      reversed base, equals the conventional second sum over the first ten
      digits. Under the first pass's guard the input digit is the computed one. */
  lemma SecondPassIsConventionalSum(d: seq<int>)
    requires |d| == 11
    ensures ReduceWeighted([d[9]] + Reverse(d[..9])) == DescendingWeightedSum(d[..10], 11)
    ensures d[9] == CheckDigit(ReduceWeighted(Reverse(d[..9]))) ==>
      ReduceWeighted([d[9]] + Reverse(d[..9]))
        == ReduceWeighted([CheckDigit(ReduceWeighted(Reverse(d[..9])))] + Reverse(d[..9]))
  {
    assert d[..10] == d[..9] + [d[9]];
    ReverseSnoc(d[..9], d[9]);
    ReduceReversed(d[..10]);
  }

  lemma PassesAgreeWithRule(d: seq<int>)
    requires |d| == 11
    ensures (d[9] == CheckDigit(ReduceWeighted(Reverse(d[..9])))
             && d[10] == CheckDigit(ReduceWeighted([d[9]] + Reverse(d[..9]))))
            <==> CpfCheckDigitsHold(d)
  {
    ReduceReversed(d[..9]);
    SecondPassIsConventionalSum(d);
    CheckDigitIsRuleDigit(ReduceWeighted(Reverse(d[..9])));
    CheckDigitIsRuleDigit(ReduceWeighted([d[9]] + Reverse(d[..9])));
  }

  /** Re-validating an accepted CPF accepts it again with the same value. */
  lemma ValidaCPFIdempotent(s: string)
    ensures ValidaCPF(s).Sucesso? ==> ValidaCPF(ValidaCPF(s).valor) == ValidaCPF(s)
  {
  }

  /** The digit sequence of an all-digit string literal, spelled out. */
  lemma DigitsOfLiteral(s: string, d: seq<int>)
    requires |s| == |d| && AllDigits(s)
    requires forall i :: 0 <= i < |s| ==> d[i] == s[i] as int - '0' as int
    ensures DigitsOf(s) == d
  {
  }

  /** A known valid CPF is accepted unchanged. */
  lemma ValidaCPFKnownVector(s: string)
    requires s == "11144477735"
    ensures ValidaCPF(s) == Sucesso(s)
  {
    var d := [1, 1, 1, 4, 4, 4, 7, 7, 7, 3, 5];
    DigitsOfLiteral(s, d);
    assert d[..9] == [1, 1, 1, 4, 4, 4, 7, 7, 7];
    assert d[..10] == [1, 1, 1, 4, 4, 4, 7, 7, 7, 3];
    assert DescendingWeightedSum([1, 1, 1, 4, 4, 4, 7, 7, 7], 10) == 162;
    assert DescendingWeightedSum([1, 1, 1, 4, 4, 4, 7, 7, 7, 3], 11) == 204;
    assert RuleDigit(162) == 3;
    assert RuleDigit(204) == 5;
    assert CpfCheckDigitsHold(d);
  }

  /** Tampering with the last digit of that CPF makes the second check digit fail. */
  lemma ValidaCPFTamperedVector(s: string)
    requires s == "11144477736"
    ensures ValidaCPF(s) == Erro(MsgCpfDv)
  {
    var d := [1, 1, 1, 4, 4, 4, 7, 7, 7, 3, 6];
    DigitsOfLiteral(s, d);
    assert d[..10] == [1, 1, 1, 4, 4, 4, 7, 7, 7, 3];
    assert DescendingWeightedSum([1, 1, 1, 4, 4, 4, 7, 7, 7, 3], 11) == 204;
    assert RuleDigit(204) == 5;
    assert !CpfCheckDigitsHold(d);
  }

  /** Repeated digits are not special-cased: the all-zero string passes. */
  lemma ValidaCPFAllZeros(s: string)
    requires s == "00000000000"
    ensures ValidaCPF(s) == Sucesso(s)
  {
    var d := [0, 0, 0, 0, 0, 0, 0, 0, 0, 0, 0];
    DigitsOfLiteral(s, d);
    assert d[..9] == [0, 0, 0, 0, 0, 0, 0, 0, 0];
    assert d[..10] == [0, 0, 0, 0, 0, 0, 0, 0, 0, 0];
    assert DescendingWeightedSum([0, 0, 0, 0, 0, 0, 0, 0, 0], 10) == 0;
    assert DescendingWeightedSum([0, 0, 0, 0, 0, 0, 0, 0, 0, 0], 11) == 0;
  }

  /** The all-one string passes as well. */
  lemma ValidaCPFAllOnes(s: string)
    requires s == "11111111111"
    ensures ValidaCPF(s) == Sucesso(s)
  {
    var d := [1, 1, 1, 1, 1, 1, 1, 1, 1, 1, 1];
    DigitsOfLiteral(s, d);
    assert d[..9] == [1, 1, 1, 1, 1, 1, 1, 1, 1];
    assert d[..10] == [1, 1, 1, 1, 1, 1, 1, 1, 1, 1];
    assert DescendingWeightedSum([1, 1, 1, 1, 1, 1, 1, 1, 1], 10) == 54;
    assert DescendingWeightedSum([1, 1, 1, 1, 1, 1, 1, 1, 1, 1], 11) == 65;
  }

  /** Wrong length or any non-digit, including surrounding whitespace, is a format error. */
  lemma ValidaCPFMalformed()
    ensures ValidaCPF("1114447773") == Erro(MsgCpfFormato)
    ensures ValidaCPF("1114447773 ") == Erro(MsgCpfFormato)
    ensures ValidaCPF("") == Erro(MsgCpfFormato)
  {
    assert !IsAsciiDigit("1114447773 "[10]);
  }
}
