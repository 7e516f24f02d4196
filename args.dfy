/**
 Command-line arguments read as `-key value` pairs.
 */
module Args {

  /** `i` is the index of a key: even, and followed by a value. */
  predicate KeyAt(args: seq<string>, i: int) {
    0 <= i && i % 2 == 0 && i + 1 < |args|
  }

  /** The map the pairs of `args` build, a later pair overwriting an earlier
      one with the same key, and a trailing unpaired argument ignored. */
  function ArgMap(args: seq<string>): map<string, string>
    decreases |args|
  {
    if |args| < 2 then map[]
    else if |args| % 2 == 1 then ArgMap(args[..|args| - 1])
    else ArgMap(args[..|args| - 2])[args[|args| - 2] := args[|args| - 1]]
  }

  /** `parseArgs`: one pass over the even indices. */
  method ParseArgs(args: seq<string>) returns (m: map<string, string>)
    ensures m == ArgMap(args)
  {
    m := map[];
    var i := 0;
    while i < |args|
      invariant 0 <= i <= |args| + 1 && i % 2 == 0
      invariant m == ArgMap(args[..if i <= |args| then i else |args|])
    {
      if i + 1 < |args| {
        assert args[..i + 2][..i] == args[..i];
        m := m[args[i] := args[i + 1]];
      } else {
        assert args[..|args|][..i] == args[..i];
      }
      i := i + 2;
    }
    assert args[..|args|] == args;
  }

  /** The keys are exactly the arguments at key positions. */
  lemma {:induction false} ArgMapKeys(args: seq<string>, k: string)
    ensures k in ArgMap(args) <==> exists i :: KeyAt(args, i) && args[i] == k
    decreases |args|
  {
    if |args| < 2 {
    } else if |args| % 2 == 1 {
      var front := args[..|args| - 1];
      ArgMapKeys(front, k);
      assert forall i :: KeyAt(args, i) <==> KeyAt(front, i);
      assert forall i :: KeyAt(front, i) ==> front[i] == args[i];
    } else {
      var front := args[..|args| - 2];
      ArgMapKeys(front, k);
      assert forall i :: KeyAt(front, i) ==> KeyAt(args, i) && front[i] == args[i];
      assert forall i :: KeyAt(args, i) && i != |args| - 2 ==> KeyAt(front, i);
    }
  }

  /** A key maps to the value after its last occurrence at a key position. */
  lemma {:induction false} ArgMapLastWins(args: seq<string>, i: int)
    requires KeyAt(args, i)
    requires forall j :: KeyAt(args, j) && j > i ==> args[j] != args[i]
    ensures args[i] in ArgMap(args) && ArgMap(args)[args[i]] == args[i + 1]
    decreases |args|
  {
    if |args| % 2 == 1 {
      var front := args[..|args| - 1];
      assert KeyAt(front, i);
      ArgMapLastWins(front, i);
    } else if i != |args| - 2 {
      var front := args[..|args| - 2];
      assert KeyAt(front, i);
      assert args[|args| - 2] != args[i] by { assert KeyAt(args, |args| - 2); }
      ArgMapLastWins(front, i);
    }
  }
}
