/**
 * The proof-of-work puzzle: a proof is valid for the previous block when the
 * digest of "<last proof><proof><last hash>" starts with four zero digits.
 */
module Puzzle {
  import opened Wrappers
  import opened Blocks

  const Zeros: string := "0000"

  function DigitChar(d: nat): (ch: char)
    requires d < 10
    ensures '0' <= ch <= '9'
    ensures (ch == '0') == (d == 0)
  {
    ('0' as int + d) as char
  }

  /** The value of a decimal digit character. */
  function DigitValue(ch: char): (d: nat)
    requires '0' <= ch <= '9'
    ensures d < 10
  {
    ch as int - '0' as int
  }

  /** The string is a non-empty run of decimal digits. */
  predicate AllDigits(s: string)
  {
    |s| >= 1 && forall i :: 0 <= i < |s| ==> '0' <= s[i] <= '9'
  }

  /** The number a run of decimal digits spells, most significant digit first. */
  function DigitsValue(s: string): nat
    requires forall i :: 0 <= i < |s| ==> '0' <= s[i] <= '9'
    decreases |s|
  {
    if s == [] then 0 else DigitsValue(s[..|s| - 1]) * 10 + DigitValue(s[|s| - 1])
  }

  /** The text is an optional '-' followed by a non-empty run of digits. */
  predicate IsDecimalText(s: string)
  {
    if |s| >= 1 && s[0] == '-' then AllDigits(s[1..]) else AllDigits(s)
  }

  /** The integer a decimal text denotes. */
  function DecimalValue(s: string): int
    requires IsDecimalText(s)
  {
    if s[0] == '-' then 0 - DigitsValue(s[1..]) else DigitsValue(s)
  }

  /** Python's `str` of a non-negative integer: decimal digits with no leading zero. */
  function Digits(n: nat): (s: string)
    ensures AllDigits(s)
    ensures |s| > 1 ==> s[0] != '0'
    ensures (n < 10) == (|s| == 1)
    decreases n
  {
    if n < 10 then [DigitChar(n)] else Digits(n / 10) + [DigitChar(n % 10)]
  }

  /** Python's `str` of an integer: a decimal text, with '-' exactly for negative n. */
  function Decimal(n: int): (s: string)
    ensures IsDecimalText(s)
    ensures (s[0] == '-') == (n < 0)
  {
    if n < 0 then
      var t := "-" + Digits(-n);
      assert t[1..] == Digits(-n);
      t
    else Digits(n)
  }

  lemma DivMod10(q: nat, r: nat)
    requires r < 10
    ensures (10 * q + r) / 10 == q && (10 * q + r) % 10 == r
  {
  }

  /** The digits of n spell n. */
  lemma {:induction false} DigitsSpellValue(n: nat)
    ensures DigitsValue(Digits(n)) == n
    decreases n
  {
    if n >= 10 {
      var high := Digits(n / 10);
      var s := high + [DigitChar(n % 10)];
      assert s[..|s| - 1] == high;
      DigitsSpellValue(n / 10);
      assert DigitsValue(s) == (n / 10) * 10 + n % 10;
    }
  }

  /** The decimal text of n denotes n, so different integers have different texts. */
  lemma DecimalSpellsValue(n: int)
    ensures DecimalValue(Decimal(n)) == n
  {
    if n < 0 {
      DigitsSpellValue(-n);
      assert Decimal(n)[1..] == Digits(-n);
    } else {
      DigitsSpellValue(n);
    }
  }

  /** Different integers have different decimal texts. */
  lemma DecimalInjective(a: int, b: int)
    requires Decimal(a) == Decimal(b)
    ensures a == b
  {
    DecimalSpellsValue(a);
    DecimalSpellsValue(b);
  }

  /** The string the puzzle hashes: the f-string of both proofs and the last hash. */
  function PuzzleInput(lastProof: int, proof: int, lastHash: string): string
  {
    Decimal(lastProof) + Decimal(proof) + lastHash
  }

  /** Python's `s[:n]`: the first n characters, or all of s when it is shorter. */
  function Head(s: string, n: nat): (t: string)
    ensures t <= s
    ensures |t| == if |s| < n then |s| else n
  {
    if |s| < n then s else s[..n]
  }

  /** The intended puzzle: the digest's first four characters are "0000". */
  predicate ValidProof(c: Crypto, lastProof: int, proof: int, lastHash: string)
  {
    Head(c.sha256(PuzzleInput(lastProof, proof, lastHash)), 4) == Zeros
  }

  /** A proof is valid exactly when "0000" is a prefix of the puzzle digest. */
  lemma ValidProofIsZeroPrefix(c: Crypto, lastProof: int, proof: int, lastHash: string)
    ensures ValidProof(c, lastProof, proof, lastHash) <==> Zeros <= c.sha256(PuzzleInput(lastProof, proof, lastHash))
  {
  }

  /**
   * The puzzle input does not separate the two proofs, so moving the last
   * digit of the first proof to the front of a one-digit second proof poses
   * the same puzzle: (12, 3) and (1, 23), or (4507, 9) and (450, 79).
   */
  lemma PuzzleInputAmbiguous(c: Crypto, a: nat, d: nat, b: nat, lastHash: string)
    requires a >= 1 && 1 <= d <= 9 && b <= 9
    ensures 10 * a + d != a
    ensures PuzzleInput(10 * a + d, b, lastHash) == PuzzleInput(a, 10 * d + b, lastHash)
    ensures ValidProof(c, 10 * a + d, b, lastHash) == ValidProof(c, a, 10 * d + b, lastHash)
  {
    DivMod10(a, d);
    DivMod10(d, b);
    assert Decimal(10 * a + d) == Digits(a) + [DigitChar(d)];
    assert Digits(10 * d + b) == Digits(d) + [DigitChar(b)];
    assert Digits(d) == [DigitChar(d)];
  }

  /**
   * valid_proof as written: `guess_hash` is bound to the method `hexdigest`
   * itself, not to its result, and `guess_hash[:4]` slices a method object,
   * which raises TypeError whatever the arguments are.
   */
  function ValidProofAsWritten(c: Crypto, lastProof: int, proof: int, lastHash: string): Result<bool, Error>
  {
    Failure(TypeError)
  }

  /** As written, even a proof that solves the puzzle is never accepted. */
  lemma AsWrittenRejectsSolvedPuzzle(c: Crypto, lastProof: int, proof: int, lastHash: string)
    requires ValidProof(c, lastProof, proof, lastHash)
    ensures ValidProofAsWritten(c, lastProof, proof, lastHash) != Success(ValidProof(c, lastProof, proof, lastHash))
  {
  }
}
