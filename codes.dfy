/**
 * Short-code generation: `randomString(7)` over a 62-character alphabet and
 * the retry loop that draws again while the candidate is already stored,
 * unless its lower-case form is `"shorten"`. The random source is an
 * oracle: each call of `RandomString` reads one index in `[0, 62)` per
 * character, standing for `Math.floor(Math.random() * 62)`.
 */
module CodeGen {
  import opened Wrappers
  import opened JsStrings
  import opened LinkStore

  const Digits: string := "0123456789"
  const LowerLetters: string := "abcdefghijklmnopqrstuvwxyz"
  const UpperLetters: string := "ABCDEFGHIJKLMNOPQRSTUVWXYZ"

  /** `chars` of `randomString`: the ten digits, then the lower-case, then the upper-case letters. */
  const Alphabet: string := Digits + LowerLetters + UpperLetters

  /** Length of every generated code. */
  const CodeLength: nat := 7

  /** The code the retry loop never rejects, compared after lower-casing. */
  const Reserved: string := "shorten"

  predicate IsAlnum(c: char) {
    '0' <= c <= '9' || 'a' <= c <= 'z' || 'A' <= c <= 'Z'
  }

  /** What a generated code looks like: seven characters from `0-9a-zA-Z`. */
  predicate IsCode(code: string) {
    |code| == CodeLength && forall k :: 0 <= k < |code| ==> IsAlnum(code[k])
  }

  /** Every index is a position in the alphabet. */
  predicate InAlphabet(indices: seq<nat>) {
    forall k :: 0 <= k < |indices| ==> indices[k] < |Alphabet|
  }

  /** The random indices one `randomString(7)` call reads. */
  predicate IsDraw(draw: seq<nat>) {
    |draw| == CodeLength && InAlphabet(draw)
  }

  /** The alphabet has 62 characters, all of them ASCII letters or digits. */
  lemma AlphabetIsAlnum()
    ensures |Alphabet| == 62
    ensures forall i :: 0 <= i < |Alphabet| ==> IsAlnum(Alphabet[i])
  {
    assert forall i :: 0 <= i < |Digits| ==> '0' <= Digits[i] <= '9';
    assert forall i :: 0 <= i < |LowerLetters| ==> 'a' <= LowerLetters[i] <= 'z';
    assert forall i :: 0 <= i < |UpperLetters| ==> 'A' <= UpperLetters[i] <= 'Z';
  }

  /** The string spelled by a sequence of alphabet indices. */
  function Spell(indices: seq<nat>): (s: string)
    requires InAlphabet(indices)
    ensures |s| == |indices|
    ensures forall k :: 0 <= k < |s| ==> s[k] == Alphabet[indices[k]] && IsAlnum(s[k])
  {
    AlphabetIsAlnum();
    seq(|indices|, k requires 0 <= k < |indices| => Alphabet[indices[k]])
  }

  /**
   * `randomString(length)`: one alphabet character per step, the index of
   * the k-th step taken from `oracle[k]`.
   */
  method RandomString(length: nat, oracle: seq<nat>) returns (result: string)
    requires length <= |oracle| && InAlphabet(oracle)
    ensures result == Spell(oracle[..length])
    ensures |result| == length
    ensures forall k :: 0 <= k < length ==> result[k] == Alphabet[oracle[k]] && IsAlnum(result[k])
  {
    result := "";
    var i := length;
    while i > 0
      invariant 0 <= i <= length
      invariant result == Spell(oracle[..length - i])
    {
      assert oracle[..length - i + 1][..length - i] == oracle[..length - i];
      result := result + [Alphabet[oracle[length - i]]];
      i := i - 1;
    }
  }

  /**
   * The exit condition of the retry loop: it stops on a candidate that no
   * row carries, or on one spelling `shorten` in any case.
   */
  function Accepts(rows: seq<Row>, code: string): (accepted: bool)
    ensures accepted <==>
      (forall j :: 0 <= j < |rows| ==> rows[j].code != code) || ToLower(code) == Reserved
  {
    FindByCode(rows, code).None? || ToLower(code) == Reserved
  }

  /**
   * The collision-retry loop. Draw `k` is the candidate of the k-th call of
   * `randomString(7)`; the loop returns the first candidate it accepts, so
   * a stored code whose lower-case form is `shorten` can be handed out
   * again. That an acceptable draw eventually comes is an assumption on the
   * random source.
   */
  method GenerateCode(rows: seq<Row>, draws: seq<seq<nat>>) returns (code: string, k: nat)
    requires forall j :: 0 <= j < |draws| ==> |draws[j]| == CodeLength && InAlphabet(draws[j])
    requires exists j :: 0 <= j < |draws| && Accepts(rows, Spell(draws[j]))
    ensures k < |draws| && code == Spell(draws[k])
    ensures Accepts(rows, code) && IsCode(code)
    ensures forall j :: 0 <= j < k ==> !Accepts(rows, Spell(draws[j]))
  {
    ghost var good :| 0 <= good < |draws| && Accepts(rows, Spell(draws[good]));
    k := 0;
    assert draws[0][..CodeLength] == draws[0];
    code := RandomString(CodeLength, draws[0]);
    var result2 := FindByCode(rows, code);
    while result2.Some? && ToLower(code) != Reserved
      invariant k <= good < |draws| && code == Spell(draws[k])
      invariant result2 == FindByCode(rows, code)
      invariant forall j :: 0 <= j < k ==> !Accepts(rows, Spell(draws[j]))
      decreases |draws| - k
    {
      ghost var rejected := k;
      assert !Accepts(rows, Spell(draws[rejected]));
      assert rejected != good;
      k := k + 1;
      assert draws[k][..CodeLength] == draws[k];
      code := RandomString(CodeLength, draws[k]);
      result2 := FindByCode(rows, code);
      forall j | 0 <= j < k ensures !Accepts(rows, Spell(draws[j])) {
        if j == rejected {
          assert Spell(draws[j]) == Spell(draws[rejected]);
        }
      }
    }
  }

  /** A stored code spelling `shorten` in any case is accepted although it collides. */
  lemma ReservedCollisionAccepted(rows: seq<Row>, i: nat)
    requires i < |rows| && ToLower(rows[i].code) == Reserved
    ensures FindByCode(rows, rows[i].code).Some? && Accepts(rows, rows[i].code)
  {
    assert FirstByCode(rows, rows[i].code) <= i;
  }
}
