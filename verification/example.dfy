/** The sample program shipped in the workspace (workspace/example.py): the
    `fibonacci` list builder and `WebCodeEditor.add_feature`. Python
    integers are unbounded, as Dafny's are. */
module Example {

  /** The `i`-th Fibonacci number, counting from 0. */
  function Fib(i: nat): nat
  {
    if i < 2 then i else Fib(i - 1) + Fib(i - 2)
  }

  /** `fibonacci(n)`: the first `n` Fibonacci numbers, and none for `n <= 0`. */
  method Fibonacci(n: int) returns (fib: seq<nat>)
    ensures n <= 0 ==> fib == []
    ensures n > 0 ==> |fib| == n
    ensures forall i :: 0 <= i < |fib| ==> fib[i] == Fib(i)
  {
    if n <= 0 {
      return [];
    } else if n == 1 {
      return [0];
    } else if n == 2 {
      return [0, 1];
    }
    fib := [0, 1];
    var i := 2;
    while i < n
      invariant 2 <= i <= n
      invariant |fib| == i
      invariant forall k :: 0 <= k < i ==> fib[k] == Fib(k)
    {
      fib := fib + [fib[i - 1] + fib[i - 2]];
      i := i + 1;
    }
  }

  /** The list starts 0, 1 and each later number is the sum of the two
      before it; the base cases are as the function spells them out. */
  lemma FibonacciShape(n: int, fib: seq<nat>)
    requires n <= 0 ==> fib == []
    requires n > 0 ==> |fib| == n
    requires forall i :: 0 <= i < |fib| ==> fib[i] == Fib(i)
    ensures n == 1 ==> fib == [0]
    ensures n == 2 ==> fib == [0, 1]
    ensures forall i :: 2 <= i < |fib| ==> fib[i] == fib[i - 1] + fib[i - 2]
  {
  }

  /** Fibonacci numbers never shrink: the list is sorted. */
  lemma {:induction false} FibMonotone(i: nat, j: nat)
    requires i <= j
    ensures Fib(i) <= Fib(j)
    decreases j - i
  {
    if i < j {
      FibMonotone(i, j - 1);
      assert Fib(j - 1) <= Fib(j);
    }
  }

  /** What `add_feature` prints. */
  datatype Reply = Added(feature: string) | AlreadyExists(feature: string)

  /** The features a new editor lists. */
  const DefaultFeatures: seq<string> := [
    "Code editing with syntax highlighting",
    "File management",
    "Terminal access",
    "Multi-tab support",
    "Upload/Download files",
    "Dark theme interface"
  ]

  /** No feature is listed twice. */
  predicate NoRepeats(features: seq<string>)
  {
    forall i, j :: 0 <= i < j < |features| ==> features[i] != features[j]
  }

  /** `add_feature(feature)`: appended only when not listed yet. */
  function AddFeature(features: seq<string>, feature: string): (r: (seq<string>, Reply))
    ensures feature in features ==> r == (features, AlreadyExists(feature))
    ensures feature !in features ==> r == (features + [feature], Added(feature))
  {
    if feature !in features then (features + [feature], Added(feature))
    else (features, AlreadyExists(feature))
  }

  /** A new editor lists no feature twice. */
  lemma DefaultsHaveNoRepeats()
    ensures NoRepeats(DefaultFeatures)
  {
  }

  /** Adding keeps the list free of repeats, and the added feature is listed
      afterwards. */
  lemma AddKeepsNoRepeats(features: seq<string>, feature: string)
    requires NoRepeats(features)
    ensures NoRepeats(AddFeature(features, feature).0)
    ensures feature in AddFeature(features, feature).0
  {
  }

  /** Adding the same feature twice is adding it once. */
  lemma AddTwice(features: seq<string>, feature: string)
    ensures var once := AddFeature(features, feature).0;
      AddFeature(once, feature).0 == once
  {
  }
}
