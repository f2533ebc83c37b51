/** The loop shape `for key in keys { state = step(state, key)?; }`. */
module Folds {
  import opened Wrappers

  /** State after the loop, or the first failure. */
  function TryFold<S, E>(step: (S, string) -> Result<S, E>, s: S, keys: seq<string>): Result<S, E> {
    if keys == [] then Ok(s)
    else
      var before := TryFold(step, s, keys[..|keys| - 1]);
      if before.Err? then before else step(before.value, keys[|keys| - 1])
  }

  lemma {:induction false} TryFoldStops<S, E>(step: (S, string) -> Result<S, E>, s: S, keys: seq<string>, i: nat)
    requires i <= |keys| && TryFold(step, s, keys[..i]).Err?
    ensures TryFold(step, s, keys) == TryFold(step, s, keys[..i])
  {
    if i < |keys| {
      assert keys[..|keys| - 1][..i] == keys[..i];
      TryFoldStops(step, s, keys[..|keys| - 1], i);
    } else {
      assert keys[..i] == keys;
    }
  }

  lemma TryFoldNone<S, E>(step: (S, string) -> Result<S, E>, s: S, keys: seq<string>)
    ensures TryFold(step, s, keys[..0]) == Ok(s)
  {
  }

  lemma TryFoldSnoc<S, E>(step: (S, string) -> Result<S, E>, s: S, keys: seq<string>, i: nat)
    requires i < |keys|
    ensures TryFold(step, s, keys[..i + 1]) ==
              var before := TryFold(step, s, keys[..i]);
              if before.Err? then before else step(before.value, keys[i])
  {
    assert keys[..i + 1][..i] == keys[..i];
  }

  method RunTryFold<S, E>(step: (S, string) -> Result<S, E>, s: S, keys: seq<string>) returns (r: Result<S, E>)
    ensures r == TryFold(step, s, keys)
  {
    var state := s;
    for i := 0 to |keys|
      invariant TryFold(step, s, keys[..i]) == Ok(state)
    {
      assert keys[..i + 1][..i] == keys[..i];
      var next := step(state, keys[i]);
      if next.Err? {
        TryFoldStops(step, s, keys, i + 1);
        return next;
      }
      state := next.value;
    }
    assert keys[..|keys|] == keys;
    return Ok(state);
  }
}
