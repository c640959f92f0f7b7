/** Room codes (backend/src/utils/roomCodeGenerator.js). `Math.random` is replaced
    by an oracle: `random(n)` is the alphabet index the n-th draw produces, that is
    `Math.floor(Math.random() * 32)` at that draw. */
module RoomCodeGenerator {
  import opened Wrappers
  import opened JsStrings

  /** The alphabet as written. It leaves out I, O, 0 and 1 (but not L). */
  const Alphabet: string := "ABCDEFGHJKLMNPQRSTUVWXYZ23456789"
  const CodeLength: nat := 8
  const DefaultMaxAttempts: int := 10
  const ExhaustedMessage: string := "Failed to generate unique room code after maximum attempts"

  /** An index into `Alphabet`, the value of one random draw. */
  type CharIndex = i: int | 0 <= i < 32

  /** The code that eight consecutive draws starting at `draw` spell out. */
  function DrawnCode(random: nat -> CharIndex, draw: nat): (code: string)
    ensures |code| == CodeLength
    ensures forall i :: 0 <= i < CodeLength ==> code[i] == Alphabet[random(draw + i)]
  {
    seq(CodeLength, i requires 0 <= i < CodeLength => Alphabet[random(draw + i)])
  }

  /** `generateRoomCode()`: draws eight characters, one per loop round.
      Returns the code and the index of the next unused draw. */
  method GenerateRoomCode(random: nat -> CharIndex, draw: nat) returns (code: string, next: nat)
    ensures code == DrawnCode(random, draw)
    ensures next == draw + CodeLength
  {
    code := "";
    var i := 0;
    while i < CodeLength
      invariant 0 <= i <= CodeLength
      invariant |code| == i
      invariant forall k :: 0 <= k < i ==> code[k] == Alphabet[random(draw + k)]
    {
      code := code + [Alphabet[random(draw + i)]];
      i := i + 1;
    }
    next := draw + CodeLength;
  }

  /** The code attempt number `attempt` produces when the retries start at `draw`. */
  function AttemptCode(random: nat -> CharIndex, draw: nat, attempt: nat): string {
    DrawnCode(random, draw + CodeLength * attempt)
  }

  /** The first attempt below `maxAttempts`, from `a` on, whose code is not taken. */
  function FirstUntaken(taken: string -> bool, random: nat -> CharIndex, draw: nat, maxAttempts: int, a: nat := 0): (r: Option<nat>)
    ensures r.Some? ==> a <= r.value < maxAttempts && !taken(AttemptCode(random, draw, r.value))
    decreases maxAttempts - a
  {
    if a >= maxAttempts then None
    else if !taken(AttemptCode(random, draw, a)) then Some(a)
    else FirstUntaken(taken, random, draw, maxAttempts, a + 1)
  }

  /** `FirstUntaken` finds the least attempt whose code is free, and finds nothing
      exactly when every attempt's code is taken. */
  lemma {:induction false} FirstUntakenMeans(taken: string -> bool, random: nat -> CharIndex, draw: nat, maxAttempts: int, a: nat)
    ensures FirstUntaken(taken, random, draw, maxAttempts, a).None? <==>
              forall b :: a <= b < maxAttempts ==> taken(AttemptCode(random, draw, b))
    ensures FirstUntaken(taken, random, draw, maxAttempts, a).Some? ==>
              forall b :: a <= b < FirstUntaken(taken, random, draw, maxAttempts, a).value ==> taken(AttemptCode(random, draw, b))
    decreases maxAttempts - a
  {
    if a < maxAttempts && taken(AttemptCode(random, draw, a)) {
      FirstUntakenMeans(taken, random, draw, maxAttempts, a + 1);
    }
  }

  /** `generateUniqueRoomCode(checkExistsFn, maxAttempts)`: draws codes until one is
      not taken. `taken` is `checkExistsFn`; `checks` counts its calls. */
  method GenerateUniqueRoomCode(taken: string -> bool, random: nat -> CharIndex, draw: nat,
                                maxAttempts: int := DefaultMaxAttempts)
    returns (r: Result<string, string>, next: nat, checks: nat)
    ensures checks <= if maxAttempts < 0 then 0 else maxAttempts
    ensures next == draw + CodeLength * checks
    ensures forall a :: 0 <= a < checks - 1 ==> taken(AttemptCode(random, draw, a))
    ensures r.Ok? ==> checks >= 1 && r.value == AttemptCode(random, draw, checks - 1)
                      && !taken(r.value)
    ensures r.Err? ==> r.error == ExhaustedMessage && checks == (if maxAttempts < 0 then 0 else maxAttempts)
                       && forall a :: 0 <= a < checks ==> taken(AttemptCode(random, draw, a))
    ensures r.Ok? <==> FirstUntaken(taken, random, draw, maxAttempts).Some?
    ensures r.Ok? ==> checks == FirstUntaken(taken, random, draw, maxAttempts).value + 1
                      && r.value == AttemptCode(random, draw, FirstUntaken(taken, random, draw, maxAttempts).value)
  {
    var attempt := 0;
    next := draw;
    checks := 0;
    while attempt < maxAttempts
      invariant 0 <= attempt <= (if maxAttempts < 0 then 0 else maxAttempts)
      invariant checks == attempt
      invariant next == draw + CodeLength * attempt
      invariant forall a :: 0 <= a < attempt ==> taken(AttemptCode(random, draw, a))
      invariant FirstUntaken(taken, random, draw, maxAttempts) == FirstUntaken(taken, random, draw, maxAttempts, attempt)
      decreases maxAttempts - attempt
    {
      var code;
      code, next := GenerateRoomCode(random, next);
      var isTaken := taken(code);
      checks := checks + 1;
      if !isTaken {
        r := Ok(code);
        return;
      }
      attempt := attempt + 1;
    }
    r := Err(ExhaustedMessage);
  }

  /** Every alphabet character is an upper-case ASCII letter or a digit, and none is
      one of the look-alikes I, O, 0 and 1. */
  predicate IsAlphabetChar(c: char) {
    (IsAsciiUpper(c) || ('2' <= c <= '9')) && c != 'I' && c != 'O'
  }

  lemma AlphabetChars()
    ensures |Alphabet| == 32
    ensures forall k :: 0 <= k < 32 ==> IsAlphabetChar(Alphabet[k])
  {
  }

  /** Drawn codes are eight upper-case letters and digits from the alphabet. */
  lemma DrawnCodeChars(random: nat -> CharIndex, draw: nat)
    ensures forall i :: 0 <= i < |DrawnCode(random, draw)| ==> IsAlphabetChar(DrawnCode(random, draw)[i])
  {
    AlphabetChars();
  }

  /** The comment in the source says L is excluded; the alphabet as written contains it. */
  lemma AlphabetContainsL()
    ensures 'L' in Alphabet
  {
    assert Alphabet[10] == 'L';
  }
}
