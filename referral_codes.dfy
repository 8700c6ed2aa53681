/** The referral-code generator. The server's registration handler and the
    client's initial-profile builder carry identical copies: eight characters,
    each `chars.charAt(Math.floor(Math.random() * chars.length))` over A–Z and
    0–9. `Math.random` is an oracle here: the caller passes its eight draws. */
module ReferralCodes {

  const Alphabet: string := "ABCDEFGHIJKLMNOPQRSTUVWXYZ0123456789"
  const CodeLength: nat := 8

  /** A value `Math.random` can return. */
  predicate IsDraw(d: real) {
    0.0 <= d < 1.0
  }

  predicate ValidDraws(draws: seq<real>) {
    |draws| == CodeLength && forall i :: 0 <= i < |draws| ==> IsDraw(draws[i])
  }

  /** `Math.floor(d * chars.length)`: always a position of the alphabet. */
  function Position(d: real): (i: nat)
    requires IsDraw(d)
    ensures i < |Alphabet|
    ensures i as real <= d * |Alphabet| as real < i as real + 1.0
  {
    (d * |Alphabet| as real).Floor
  }

  function Pick(d: real): (c: char)
    requires IsDraw(d)
    ensures c in Alphabet
  {
    Alphabet[Position(d)]
  }

  /** The code the eight draws produce. */
  function CodeFromDraws(draws: seq<real>): (code: string)
    requires ValidDraws(draws)
    ensures |code| == CodeLength
    ensures forall i :: 0 <= i < |code| ==> code[i] in Alphabet
  {
    seq(|draws|, i requires 0 <= i < |draws| => Pick(draws[i]))
  }

  /** `generateReferralCode`: appends one picked character per draw. */
  method GenerateReferralCode(draws: seq<real>) returns (code: string)
    requires ValidDraws(draws)
    ensures code == CodeFromDraws(draws)
  {
    code := "";
    for i := 0 to CodeLength
      invariant code == CodeFromDraws(draws)[..i]
    {
      code := code + [Pick(draws[i])];
    }
  }

  /** The draw `j / 36` lands exactly on position `j`. */
  lemma PositionOfExactDraw(j: nat)
    requires j < |Alphabet|
    ensures IsDraw(j as real / 36.0) && Position(j as real / 36.0) == j
  {
    assert |Alphabet| == 36;
    var d := j as real / 36.0;
    assert d * 36.0 == j as real;
    assert (j as real).Floor == j;
  }

  /** A draw that picks character `c`. */
  ghost function DrawFor(c: char): (d: real)
    requires c in Alphabet
    ensures IsDraw(d) && Pick(d) == c
  {
    var j :| 0 <= j < |Alphabet| && Alphabet[j] == c;
    PositionOfExactDraw(j);
    j as real / 36.0
  }

  /** No code is out of reach: every eight-character string over the alphabet
      is produced by some draws. */
  lemma EveryCodeReachable(code: string)
    requires |code| == CodeLength && forall i :: 0 <= i < |code| ==> code[i] in Alphabet
    ensures exists draws :: ValidDraws(draws) && CodeFromDraws(draws) == code
  {
    var draws := seq(|code|, i requires 0 <= i < |code| => DrawFor(code[i]));
    assert ValidDraws(draws);
    assert CodeFromDraws(draws) == code;
  }
}
