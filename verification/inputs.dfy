/** The synthetic input pool (main.go `generateInputs` and `pickInput`).

    The Go code draws every choice from `math/rand` and every identifier from
    `crypto/rand`; here both are parameters: one sixteen-octet read per
    identifier, and one index triple per generated input. */
module Inputs {
  import opened Wrappers
  import Uuid

  /** The HTTP methods an input may carry. */
  const Methods: seq<string> := ["GET", "POST", "PUT", "DELETE", "PATCH"]

  /** The pool sizes fixed in `generateInputs`, whatever `n` is. */
  const PathPoolSize := 10000
  const UserPoolSize := 1000

  /** First segment of every resource path. */
  const ResourcesSegment := "resources"

  /** The body posted for one request: `{"input": {"method", "path", "user"}}`. */
  datatype Input = Input(httpMethod: string, path: seq<string>, user: string)
  datatype Document = Document(input: Input)

  /** The random choices for one input: indices into the method, path and user
      pools, as `mathrand.Intn` would return them. */
  datatype Pick = Pick(methodIndex: nat, pathIndex: nat, userIndex: nat)

  /** One sixteen-octet read from the secure random source per identifier. */
  predicate AreDraws(draws: seq<seq<bv8>>) {
    forall i :: 0 <= i < |draws| ==> |draws[i]| == Uuid.Size
  }

  predicate PickInRange(p: Pick) {
    p.methodIndex < |Methods| && p.pathIndex < PathPoolSize && p.userIndex < UserPoolSize
  }

  /** A path as `generateInputs` builds it: `["resources", <uuid>]`. */
  predicate IsResourcePath(path: seq<string>) {
    |path| == 2 && path[0] == ResourcesSegment && Uuid.WellFormed(path[1])
  }

  /** The path pool: slot `i` holds the segment `resources` followed by the
      identifier printed from draw `i`. */
  function PathPool(draws: seq<seq<bv8>>): (paths: seq<seq<string>>)
    requires AreDraws(draws)
    ensures |paths| == |draws|
    ensures forall i :: 0 <= i < |paths| ==> IsResourcePath(paths[i]) && paths[i][1][14] == '4'
  {
    seq(|draws|, i requires 0 <= i < |draws| => [ResourcesSegment, Uuid.Uuid4(draws[i])])
  }

  /** The user pool: slot `i` holds the identifier printed from draw `i`. */
  function UserPool(draws: seq<seq<bv8>>): (users: seq<string>)
    requires AreDraws(draws)
    ensures |users| == |draws|
    ensures forall i :: 0 <= i < |users| ==> Uuid.WellFormed(users[i]) && users[i][14] == '4'
  {
    seq(|draws|, i requires 0 <= i < |draws| => Uuid.Uuid4(draws[i]))
  }

  /** Each pool identifier reads back as the stamped draw it was printed
      from, so two slots share an identifier only when their stamped draws
      agree. */
  lemma PoolIdentifiersParse(draws: seq<seq<bv8>>, i: nat)
    requires AreDraws(draws) && i < |draws|
    ensures Uuid.Parse(PathPool(draws)[i][1]) == Some(Uuid.Stamp(draws[i]))
    ensures Uuid.Parse(UserPool(draws)[i]) == Some(Uuid.Stamp(draws[i]))
  {
    Uuid.ParseFormat(Uuid.Stamp(draws[i]));
  }

  /** The input one pick selects from the pools. */
  function Draw(paths: seq<seq<string>>, users: seq<string>, p: Pick): (d: Document)
    requires p.methodIndex < |Methods| && p.pathIndex < |paths| && p.userIndex < |users|
    ensures d.input.httpMethod in Methods && d.input.path in paths && d.input.user in users
  {
    Document(Input(Methods[p.methodIndex], paths[p.pathIndex], users[p.userIndex]))
  }

  /** `generateInputs(n)`: build the pools, then fill `n` slots, each drawing a
      method, a path and a user by the corresponding pick. */
  method GenerateInputs(n: nat, pathDraws: seq<seq<bv8>>, userDraws: seq<seq<bv8>>, picks: seq<Pick>)
    returns (result: seq<Document>)
    requires |pathDraws| == PathPoolSize && AreDraws(pathDraws)
    requires |userDraws| == UserPoolSize && AreDraws(userDraws)
    requires |picks| == n
    requires forall i :: 0 <= i < n ==> PickInRange(picks[i])
    ensures |result| == n
    ensures forall i :: 0 <= i < n ==>
              && result[i].input.httpMethod in Methods
              && result[i].input.path in PathPool(pathDraws)
              && result[i].input.user in UserPool(userDraws)
    ensures forall i :: 0 <= i < n ==>
              && IsResourcePath(result[i].input.path)
              && Uuid.WellFormed(result[i].input.user)
    ensures forall i :: 0 <= i < n ==> PickInRange(picks[i]) && result[i] == Draw(PathPool(pathDraws), UserPool(userDraws), picks[i])
  {
    var paths := PathPool(pathDraws);
    var users := UserPool(userDraws);
    result := [];
    for i := 0 to n
      invariant |result| == i
      invariant forall j :: 0 <= j < i ==> result[j] == Draw(paths, users, picks[j])
    {
      result := result + [Draw(paths, users, picks[i])];
    }
    forall i | 0 <= i < n
      ensures IsResourcePath(result[i].input.path) && Uuid.WellFormed(result[i].input.user)
    {
      var p := picks[i];
      assert result[i].input.path == paths[p.pathIndex];
      assert result[i].input.user == users[p.userIndex];
    }
  }

  /** `pickInput()`: the pool element at the drawn index. `mathrand.Intn`
      panics on an empty pool, which is the `None` case here. */
  function PickInput(inputs: seq<Document>, index: nat): (r: Option<Document>)
    requires |inputs| > 0 ==> index < |inputs|
    ensures r.Some? <==> |inputs| > 0
    ensures r.Some? ==> r.value in inputs
  {
    if |inputs| == 0 then None else Some(inputs[index])
  }

  /** Every element of a non-empty pool is reachable by some draw. */
  lemma PickInputReachesAll(inputs: seq<Document>, d: Document)
    requires d in inputs
    ensures exists index: nat :: index < |inputs| && PickInput(inputs, index) == Some(d)
  {
    var index :| 0 <= index < |inputs| && inputs[index] == d;
    assert PickInput(inputs, index) == Some(d);
  }
}
