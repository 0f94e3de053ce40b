/** A compiled query (pugixml.cpp, xpath_query): the parsed expression is
    optimised once and then evaluated, in whatever mode the question needs.
    Every answer is the one the reference semantics of XPath.dfy gives for the
    expression as parsed. */
module XPathQueries {
  import opened Documents
  import opened XPath
  import opened XPathOptimize
  import opened NodeSets
  import opened XPathEval

  datatype Outcome<T> = Ok(value: T) | NotANodeSet

  class XPathQuery {
    const root: Expr
    ghost const parsed: Expr

    ghost predicate Valid() {
      WellTyped(parsed) && root == Optimize(parsed)
    }

    constructor (e: Expr)
      requires WellTyped(e)
      ensures Valid() && parsed == e
    {
      root := Optimize(e);
      parsed := e;
    }

    // What the query means at node n.
    ghost function Meaning(w: World, n: int): Value
      requires Rooted(w.d) && WellTyped(parsed)
    {
      Ref(w, parsed, Context(n, 1, 1))
    }

    lemma Prepared(w: World, n: int)
      requires Valid() && Ready(w)
      ensures Evaluable(w, root) && TypeOf(root) == TypeOf(parsed) && Ref(w, root, Context(n, 1, 1)) == Meaning(w, n)
    {
      OptimizeKeepsTypes(parsed);
      OptimizeAnnotates(parsed);
      OptimizeKeepsMeaning(w, parsed, Context(n, 1, 1));
    }

    method EvaluateBoolean(w: World, n: int) returns (b: bool)
      requires Valid() && Ready(w) && (n == NULL || IsNode(w.d, n))
      ensures b == TruthOf(Meaning(w, n))
    {
      Prepared(w, n);
      b := EvalBoolean(w, root, Context(n, 1, 1));
    }

    method EvaluateNumber(w: World, n: int) returns (r: Num)
      requires Valid() && Ready(w) && (n == NULL || IsNode(w.d, n))
      ensures r == NumberOf(w, Meaning(w, n))
    {
      Prepared(w, n);
      r := EvalNumber(w, root, Context(n, 1, 1));
    }

    method EvaluateString(w: World, n: int) returns (s: string)
      requires Valid() && Ready(w) && (n == NULL || IsNode(w.d, n))
      ensures s == TextOf(w, Meaning(w, n))
    {
      Prepared(w, n);
      s := EvalString(w, root, Context(n, 1, 1));
    }

    // Every node of the set, once each, in the order the result claims.
    method EvaluateNodeSet(w: World, n: int) returns (r: Outcome<NodeSetRaw>)
      requires Valid() && Ready(w) && (n == NULL || IsNode(w.d, n))
      ensures r.NotANodeSet? <==> TypeOf(parsed) != TSet
      ensures r.Ok? ==> Meaning(w, n).SetV?
      ensures r.Ok? ==> OrderedAs(r.value.items, r.value.type')
      ensures r.Ok? ==> forall m :: m in r.value.items <==> m in Meaning(w, n).nodes
    {
      Prepared(w, n);
      if TypeOf(root) != TSet { return NotANodeSet; }
      var ns := EvalNodeSet(w, root, Context(n, 1, 1), EvalAll);
      r := Ok(ns);
    }

    // The first node of the set in document order, found without the rest of it.
    method EvaluateNode(w: World, n: int) returns (r: Outcome<int>)
      requires Valid() && Ready(w) && (n == NULL || IsNode(w.d, n))
      ensures r.NotANodeSet? <==> TypeOf(parsed) != TSet
      ensures r.Ok? ==> Meaning(w, n).SetV?
      ensures r.Ok? && Meaning(w, n).nodes == {} ==> r.value == NULL
      ensures r.Ok? && Meaning(w, n).nodes != {} ==> IsMin(Meaning(w, n).nodes, r.value)
    {
      Prepared(w, n);
      if TypeOf(root) != TSet { return NotANodeSet; }
      var m := EvalFirstNode(w, root, Context(n, 1, 1));
      r := Ok(m);
    }
  }
}
