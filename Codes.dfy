/**
 * The generator of restaurant codes: up to three random six-letter
 * candidates, the first one no restaurant uses yet is returned. The random
 * draws (each `randint(0, 25)`) are an input: one row of six letter
 * indices per attempt.
 */
module Codes {
  import opened Wrappers

  const UPPERCASE: string := "ABCDEFGHIJKLMNOPQRSTUVWXYZ"

  const CODE_LENGTH: nat := 6

  const MAX_RETRY: nat := 3

  /** One attempt's draws: six indices into the alphabet. */
  predicate ValidDraw(d: seq<nat>)
  {
    |d| == CODE_LENGTH && forall i :: 0 <= i < |d| ==> d[i] < |UPPERCASE|
  }

  predicate IsCode(c: string)
  {
    |c| == CODE_LENGTH && forall i :: 0 <= i < |c| ==> 'A' <= c[i] <= 'Z'
  }

  /** s[k] for an index drawn by randint(0, len(s) - 1). */
  function Letter(k: nat): (c: char)
    requires k < |UPPERCASE|
    ensures 'A' <= c <= 'Z'
  {
    UPPERCASE[k]
  }

  /** The candidate ''.join(s[randint(0, len(s) - 1)] for i in range(6)). */
  function CodeOf(d: seq<nat>): (c: string)
    requires ValidDraw(d)
    ensures IsCode(c)
  {
    seq(CODE_LENGTH, i requires 0 <= i < CODE_LENGTH => Letter(d[i]))
  }

  datatype CodeError = MaxRetry

  /** generate_restaurant_code: at most three candidates are drawn; the
      first one not among the existing codes is returned, and if all three
      are taken the generator fails. */
  method GenerateRestaurantCode(draws: seq<seq<nat>>, existing: set<string>) returns (r: Result<string, CodeError>)
    requires |draws| >= MAX_RETRY && forall k :: 0 <= k < MAX_RETRY ==> ValidDraw(draws[k])
    ensures r.Failure? <==> forall k :: 0 <= k < MAX_RETRY ==> CodeOf(draws[k]) in existing
    ensures r.Success? ==> IsCode(r.value) && r.value !in existing
    ensures r.Success? ==>
      exists k :: 0 <= k < MAX_RETRY && r.value == CodeOf(draws[k]) && (forall j :: 0 <= j < k ==> CodeOf(draws[j]) in existing)
  {
    var code: string := "";
    var retry := MAX_RETRY;
    while retry != 0
      invariant 0 <= retry <= MAX_RETRY
      invariant forall j :: 0 <= j < MAX_RETRY - retry ==> CodeOf(draws[j]) in existing
      decreases retry
    {
      var attempt := MAX_RETRY - retry;
      code := CodeOf(draws[attempt]);
      retry := retry - 1;
      if code in existing {
      } else {
        return Success(code);
      }
    }
    return Failure(MaxRetry);
  }
}
