/** The class hierarchy of nk_ape/class_tree.py and its bottom-up score
    propagation.

    The hierarchy maps each class name to the names of its children and
    parents. `NormalizeClassTree` drops the classes whose name is not in the
    embedding vocabulary and every reference to them. `TreeScore`
    aggregates a raw score per class from the leaves upwards: a layer is
    processed at a time, and the next layer is made of the parents of the
    previous one that are not yet processed and whose children all carry a
    (truthy) aggregated score. `Propagate` is the same computation written
    as a function, one layer at a time; the lemmas about it state what the
    propagation computes, when it fails, and that it succeeds on every
    non-empty, closed, acyclic hierarchy whose children list their parents
    back, when every class has a score and the aggregation never yields
    zero. */
module ClassTree {
  import opened Utils

  /** The two lists stored for one class in the hierarchy file. */
  datatype Rels = Rels(children: seq<string>, parents: seq<string>)

  /** Class name to relations: the parsed hierarchy file. */
  type Tree = map<string, Rels>

  /** The ways `tree_score` raises. */
  datatype Error =
    | EmptyLayer    // `assert(layer)` fails: no node can be processed next
    | MissingScore  // `score_map[node]` raises KeyError
    | UnknownClass  // `tree[node]` raises KeyError for a parent that is not a class

  datatype Result<T> = Ok(value: T) | Err(error: Error)

  /*** Hierarchy normalisation ***/

  /** `[x for x in xs if x in keep]`. */
  function Retain(xs: seq<string>, keep: set<string>): (ys: seq<string>)
    ensures forall y {:trigger y in ys} :: y in ys <==> y in xs && y in keep
    ensures |ys| <= |xs|
  {
    if xs == [] then []
    else (if xs[0] in keep then [xs[0]] else []) + Retain(xs[1..], keep)
  }

  /** Filtering keeps relative order: it distributes over concatenation. */
  lemma {:induction false} RetainAppend(xs: seq<string>, ys: seq<string>, keep: set<string>)
    ensures Retain(xs + ys, keep) == Retain(xs, keep) + Retain(ys, keep)
  {
    if xs != [] {
      assert (xs + ys)[1..] == xs[1..] + ys;
      RetainAppend(xs[1..], ys, keep);
    } else {
      assert xs + ys == ys;
    }
  }

  /** A list whose names are all retained is left as it is. */
  lemma {:induction false} RetainAll(xs: seq<string>, keep: set<string>)
    requires forall x :: x in xs ==> x in keep
    ensures Retain(xs, keep) == xs
  {
    if xs != [] {
      RetainAll(xs[1..], keep);
    }
  }

  /** No duplicates. */
  predicate Distinct<T(==)>(xs: seq<T>)
  {
    forall i, j :: 0 <= i < j < |xs| ==> xs[i] != xs[j]
  }

  /** Filtering a list without duplicates gives a list without duplicates. */
  lemma {:induction false} RetainDistinct(xs: seq<string>, keep: set<string>)
    requires Distinct(xs)
    ensures Distinct(Retain(xs, keep))
  {
    if xs != [] {
      RetainDistinct(xs[1..], keep);
      var rest := Retain(xs[1..], keep);
      assert xs[0] !in xs[1..] by {
        forall k | 0 <= k < |xs[1..]| ensures xs[1..][k] != xs[0] {
          assert xs[1..][k] == xs[k + 1];
        }
      }
      assert xs[0] !in rest;
    }
  }

  /** The hierarchy `normalize_class_tree` returns: the classes that pass
      `inVocab`, each with its lists cut down to surviving classes. */
  function Normalized(tree: Tree, inVocab: string -> bool): (t: Tree)
    ensures forall n :: n in t <==> n in tree && inVocab(n)
    ensures forall n :: n in t ==>
      t[n].children == Retain(tree[n].children, t.Keys) &&
      t[n].parents == Retain(tree[n].parents, t.Keys)
  {
    var kept := set n | n in tree && inVocab(n);
    var t := map n | n in kept :: Rels(Retain(tree[n].children, kept), Retain(tree[n].parents, kept));
    assert t.Keys == kept;
    t
  }

  /** Every name a class lists is itself a class. */
  predicate Closed(tree: Tree)
  {
    forall n :: n in tree ==>
      (forall c :: c in tree[n].children ==> c in tree) &&
      (forall p :: p in tree[n].parents ==> p in tree)
  }

  /** Every child that is a class lists its parent back. */
  predicate LinkedBack(tree: Tree)
  {
    forall n :: n in tree ==>
      forall c :: c in tree[n].children && c in tree ==> n in tree[c].parents
  }

  /** `normalize_class_tree(tree)`, with the vocabulary test of the
      embedding given as `inVocab`. */
  method NormalizeClassTree(tree: Tree, inVocab: string -> bool) returns (result: Tree)
    ensures result == Normalized(tree, inVocab)
  {
    var classes := set name | name in tree && inVocab(name);
    result := map name | name in classes :: tree[name];
    var todo := classes;
    while todo != {}
      invariant todo <= classes && result.Keys == classes
      invariant forall n :: n in todo ==> result[n] == tree[n]
      invariant forall n :: n in classes && n !in todo ==>
        result[n] == Rels(Retain(tree[n].children, classes), Retain(tree[n].parents, classes))
      decreases todo
    {
      var cl :| cl in todo;
      var rels := result[cl];
      result := result[cl := Rels(Retain(rels.children, classes), Retain(rels.parents, classes))];
      todo := todo - {cl};
    }
    NormalizedFrom(tree, inVocab, classes, result);
  }

  /** A map over the surviving classes holding each one's cut-down lists is
      the normalised hierarchy. */
  lemma NormalizedFrom(tree: Tree, inVocab: string -> bool, classes: set<string>, result: Tree)
    requires classes == set name | name in tree && inVocab(name)
    requires result.Keys == classes
    requires forall n :: n in classes ==>
      result[n] == Rels(Retain(tree[n].children, classes), Retain(tree[n].parents, classes))
    ensures result == Normalized(tree, inVocab)
  {
    assert Normalized(tree, inVocab).Keys == classes;
  }

  /** After normalisation every name a class lists is itself a class. */
  lemma NormalizedClosed(tree: Tree, inVocab: string -> bool)
    ensures Closed(Normalized(tree, inVocab))
  {
  }

  /** Normalising twice changes nothing more. */
  lemma NormalizedIdempotent(tree: Tree, inVocab: string -> bool)
    ensures Normalized(Normalized(tree, inVocab), inVocab) == Normalized(tree, inVocab)
  {
    var t := Normalized(tree, inVocab);
    var kept := set n | n in tree && inVocab(n);
    assert t.Keys == kept;
    var kept2 := set n | n in t && inVocab(n);
    assert kept2 == kept;
    forall n | n in t
      ensures Normalized(t, inVocab)[n] == t[n]
    {
      RetainAll(t[n].children, kept);
      RetainAll(t[n].parents, kept);
    }
  }

  /** Normalisation keeps children linked back to their parents. */
  lemma NormalizedLinkedBack(tree: Tree, inVocab: string -> bool)
    requires LinkedBack(tree)
    ensures LinkedBack(Normalized(tree, inVocab))
  {
    var t := Normalized(tree, inVocab);
    var kept := set n | n in tree && inVocab(n);
    forall n, c | n in t && c in t[n].children && c in t
      ensures n in t[c].parents
    {
      assert c in tree[n].children;
      assert n in tree[c].parents;
    }
  }

  /*** Leaves and the aggregation of one node ***/

  /** `get_leaves(tree)`: the classes without children, relations unchanged. */
  function GetLeaves(tree: Tree): (leaves: Tree)
    ensures forall n :: n in leaves <==> n in tree && tree[n].children == []
    ensures forall n :: n in leaves ==> leaves[n] == tree[n]
  {
    map n | n in tree && tree[n].children == [] :: tree[n]
  }

  /** `all([agg_score.get(ch) for ch in children])`: every child has an
      aggregated score, and it is truthy (non-zero). */
  predicate AllChildrenAggd(children: seq<string>, aggScore: map<string, int>)
    ensures children == [] ==> AllChildrenAggd(children, aggScore)
  {
    forall c :: c in children ==> c in aggScore && aggScore[c] != 0
  }

  /** Python's `all` over a list, one element at a time: the first child is
      truthy and so are all the others. */
  lemma AllChildrenAggdCons(children: seq<string>, aggScore: map<string, int>)
    requires children != []
    ensures AllChildrenAggd(children, aggScore) <==>
      children[0] in aggScore && aggScore[children[0]] != 0 && AllChildrenAggd(children[1..], aggScore)
  {
    assert forall c :: c in children ==> c == children[0] || c in children[1..];
  }

  /** The children's aggregated scores, in the stored order of the children. */
  function ChildScores(children: seq<string>, aggScore: map<string, int>): (scores: seq<int>)
    requires forall c :: c in children ==> c in aggScore
    ensures |scores| == |children|
    ensures forall i :: 0 <= i < |children| ==> scores[i] == aggScore[children[i]]
  {
    if children == [] then []
    else [aggScore[children[0]]] + ChildScores(children[1..], aggScore)
  }

  datatype Option<T> = None | Some(value: T)

  /** The children's aggregated scores in stored order, or `None` as soon as
      one child has no aggregate or a zero one. */
  function ChildAggregates(children: seq<string>, aggScore: map<string, int>): (r: Option<seq<int>>)
    ensures r.Some? <==> AllChildrenAggd(children, aggScore)
    ensures r.Some? ==> r.value == ChildScores(children, aggScore)
  {
    if children == [] then Some([])
    else if children[0] in aggScore && aggScore[children[0]] != 0 then
      match ChildAggregates(children[1..], aggScore)
      case None => None
      case Some(rest) => Some([aggScore[children[0]]] + rest)
    else None
  }

  /** `apply_agg_func(node_name, score_map, tree, agg_score, agg_func)`: the
      node's own score first, then its children's aggregated scores when the
      node has children and all of them are aggregated; otherwise its own
      score alone. */
  function ApplyAggFunc(name: string, scoreMap: map<string, int>, tree: Tree,
                        aggScore: map<string, int>, agg: seq<int> -> int): (v: int)
    requires name in scoreMap && name in tree
    ensures AllChildrenAggd(tree[name].children, aggScore) ==>
      v == agg([scoreMap[name]] + ChildScores(tree[name].children, aggScore))
    ensures !AllChildrenAggd(tree[name].children, aggScore) ==> v == agg([scoreMap[name]])
  {
    var children := tree[name].children;
    match ChildAggregates(children, aggScore)
    case Some(scores) =>
      if children != [] then agg([scoreMap[name]] + scores)
      else
        assert [scoreMap[name]] + ChildScores(children, aggScore) == [scoreMap[name]];
        agg([scoreMap[name]])
    case None => agg([scoreMap[name]])
  }

  /** An `agg` that never returns zero gives every node a truthy aggregate. */
  lemma ApplyAggFuncNonZero(name: string, scoreMap: map<string, int>, tree: Tree,
                            aggScore: map<string, int>, agg: seq<int> -> int)
    requires name in scoreMap && name in tree
    requires forall xs :: agg(xs) != 0
    ensures ApplyAggFunc(name, scoreMap, tree, aggScore, agg) != 0
  {
  }

  /** The aggregate of the children depends only on their own entries. */
  lemma {:induction false} ChildAggregatesFrame(children: seq<string>, m1: map<string, int>, m2: map<string, int>)
    requires forall c :: c in children ==> (c in m1 <==> c in m2) && (c in m1 ==> m1[c] == m2[c])
    ensures ChildAggregates(children, m1) == ChildAggregates(children, m2)
  {
    if children != [] {
      assert children[0] in children;
      assert forall c :: c in children[1..] ==> c in children;
      ChildAggregatesFrame(children[1..], m1, m2);
    }
  }

  /** The aggregate of a node depends only on its children's entries. */
  lemma ApplyAggFuncFrame(name: string, scoreMap: map<string, int>, tree: Tree,
                          m1: map<string, int>, m2: map<string, int>, agg: seq<int> -> int)
    requires name in scoreMap && name in tree
    requires forall c :: c in tree[name].children ==> (c in m1 <==> c in m2) && (c in m1 ==> m1[c] == m2[c])
    ensures ApplyAggFunc(name, scoreMap, tree, m1, agg) == ApplyAggFunc(name, scoreMap, tree, m2, agg)
  {
    ChildAggregatesFrame(tree[name].children, m1, m2);
  }

  /*** The layered propagation, one layer at a time ***/

  /** What `process_layer(layer)` leaves in `agg_score`: it fails on an
      empty layer and on a node without a raw score, and otherwise gives
      every node of the layer its aggregate. */
  function Processed(tree: Tree, scoreMap: map<string, int>, agg: seq<int> -> int,
                     layer: set<string>, aggScore: map<string, int>): (r: Result<map<string, int>>)
    requires layer <= tree.Keys
    ensures r.Ok? ==> layer != {} && r.value.Keys == aggScore.Keys + layer
    ensures r.Ok? ==> forall n :: n in aggScore && n !in layer ==> r.value[n] == aggScore[n]
    ensures r.Ok? ==> forall n :: n in layer ==>
      n in scoreMap && r.value[n] == ApplyAggFunc(n, scoreMap, tree, aggScore, agg)
    ensures r.Err? ==> r.error == (if layer == {} then EmptyLayer else MissingScore)
    ensures r.Err? <==> layer == {} || !(layer <= scoreMap.Keys)
  {
    if layer == {} then Err(EmptyLayer)
    else if !(layer <= scoreMap.Keys) then Err(MissingScore)
    else Ok(aggScore + map n | n in layer :: ApplyAggFunc(n, scoreMap, tree, aggScore, agg))
  }

  /** `set.union(*[set(tree[node]['parents']) for node in layer])`. */
  function ParentsOf(tree: Tree, layer: set<string>): (parents: set<string>)
    requires layer <= tree.Keys
    ensures forall p :: p in parents <==> exists n :: n in layer && p in tree[n].parents
  {
    set n, p | n in layer && p in tree[n].parents :: p
  }

  /** The next layer (lines 92-96): the parents of the previous layer, less
      the processed nodes, kept when all their children are aggregated;
      looking a candidate up in the tree raises when it is not a class. */
  function NextLayer(tree: Tree, layer: set<string>, aggScore: map<string, int>): (r: Result<set<string>>)
    requires layer <= tree.Keys
    ensures r.Err? ==> r.error == UnknownClass
    ensures r.Err? <==> exists c :: c in ParentsOf(tree, layer) && c !in aggScore && c !in tree
    ensures r.Ok? ==> forall c :: c in r.value <==>
      c in tree && c !in aggScore && c in ParentsOf(tree, layer) && AllChildrenAggd(tree[c].children, aggScore)
  {
    var candidates := ParentsOf(tree, layer) - aggScore.Keys;
    if !(candidates <= tree.Keys) then Err(UnknownClass)
    else Ok(set c | c in candidates && AllChildrenAggd(tree[c].children, aggScore))
  }

  /** Processing a non-empty layer of new classes shrinks the unprocessed rest. */
  lemma RestShrinks(all: set<string>, done: set<string>, layer: set<string>)
    requires done <= all && layer <= all && layer != {} && layer !! done
    ensures |all - (done + layer)| < |all - done|
  {
    var x :| x in layer;
    assert all - (done + layer) <= (all - done) - {x};
    assert |(all - done) - {x}| == |all - done| - 1;
  }

  /** The `while` loop of `tree_score` from a processed layer on. An entry,
      once written, is never changed, and a normal exit covers every class. */
  function Climb(tree: Tree, scoreMap: map<string, int>, agg: seq<int> -> int,
                 layer: set<string>, aggScore: map<string, int>): (r: Result<map<string, int>>)
    requires layer <= aggScore.Keys <= tree.Keys
    ensures r.Ok? ==> r.value.Keys == tree.Keys && forall n :: n in aggScore ==> r.value[n] == aggScore[n]
    decreases |tree.Keys - aggScore.Keys|
  {
    if tree.Keys - aggScore.Keys == {} then
      assert forall n :: n in tree ==> n in aggScore by {
        forall n | n in tree ensures n in aggScore { assert n !in tree.Keys - aggScore.Keys; }
      }
      Ok(aggScore)
    else
      match NextLayer(tree, layer, aggScore)
      case Err(e) => Err(e)
      case Ok(next) =>
        match Processed(tree, scoreMap, agg, next, aggScore)
        case Err(e) => Err(e)
        case Ok(m) =>
          RestShrinks(tree.Keys, aggScore.Keys, next);
          Climb(tree, scoreMap, agg, next, m)
  }

  /** One round of the climb: a successful next layer and its processing
      hand the rest of the climb to that layer. */
  lemma ClimbUnfold(tree: Tree, scoreMap: map<string, int>, agg: seq<int> -> int,
                    layer: set<string>, aggScore: map<string, int>,
                    next: set<string>, m: map<string, int>)
    requires layer <= aggScore.Keys <= tree.Keys && tree.Keys - aggScore.Keys != {}
    requires NextLayer(tree, layer, aggScore) == Ok(next)
    requires Processed(tree, scoreMap, agg, next, aggScore) == Ok(m)
    ensures next <= m.Keys <= tree.Keys
    ensures Climb(tree, scoreMap, agg, layer, aggScore) == Climb(tree, scoreMap, agg, next, m)
  {
  }

  /** `tree_score(score_map, tree, agg_func)` as a function: the leaves
      are processed first, then the loop climbs. A success needs at least
      one leaf, covers every class, and leaves each leaf at `agg([own])`. */
  function Propagate(scoreMap: map<string, int>, tree: Tree, agg: seq<int> -> int): (r: Result<map<string, int>>)
    ensures r.Ok? ==> GetLeaves(tree).Keys != {} && tree.Keys != {} && r.value.Keys == tree.Keys
    ensures r.Ok? ==> forall n :: n in tree && tree[n].children == [] ==>
      n in r.value && n in scoreMap && r.value[n] == agg([scoreMap[n]])
  {
    var leaves := GetLeaves(tree).Keys;
    match Processed(tree, scoreMap, agg, leaves, map[])
    case Err(e) => Err(e)
    case Ok(m) => Climb(tree, scoreMap, agg, leaves, m)
  }

  /*** The propagation as the source runs it ***/

  /** `process_layer(layer)`: `assert(layer)`, then each node of the layer,
      in whatever order the set yields them, gets its aggregate and is marked
      processed. Its caller only passes unprocessed nodes whose children are
      all aggregated, so the order does not matter. */
  method ProcessLayer(scoreMap: map<string, int>, tree: Tree, agg: seq<int> -> int,
                      layer: set<string>, aggScore: map<string, int>, processed: set<string>)
    returns (r: Result<map<string, int>>, done: set<string>)
    requires layer <= tree.Keys && layer !! aggScore.Keys
    requires forall n :: n in layer ==> AllChildrenAggd(tree[n].children, aggScore)
    ensures r == Processed(tree, scoreMap, agg, layer, aggScore)
    ensures r.Ok? ==> done == processed + layer
  {
    if layer == {} {
      return Err(EmptyLayer), processed;
    }
    var current := aggScore;
    done := processed;
    var todo := layer;
    ghost var finished: set<string> := {};
    while todo != {}
      invariant finished + todo == layer && finished !! todo
      invariant current.Keys == aggScore.Keys + finished
      invariant finished <= scoreMap.Keys
      invariant forall n :: n in aggScore ==> current[n] == aggScore[n]
      invariant forall n :: n in finished ==> current[n] == ApplyAggFunc(n, scoreMap, tree, aggScore, agg)
      invariant done == processed + finished
      decreases todo
    {
      var node :| node in todo;
      if node !in scoreMap {
        return Err(MissingScore), done;
      }
      var children := tree[node].children;
      assert AllChildrenAggd(children, aggScore);
      forall c | c in children ensures c in aggScore && c in current && current[c] == aggScore[c] {
      }
      ApplyAggFuncFrame(node, scoreMap, tree, aggScore, current, agg);
      current := current[node := ApplyAggFunc(node, scoreMap, tree, current, agg)];
      done := done + {node};
      todo := todo - {node};
      finished := finished + {node};
    }
    assert finished == layer;
    ProcessedIs(tree, scoreMap, agg, layer, aggScore, current);
    r := Ok(current);
  }

  /** A map that agrees with `Processed` on every key is its result. */
  lemma ProcessedIs(tree: Tree, scoreMap: map<string, int>, agg: seq<int> -> int,
                    layer: set<string>, aggScore: map<string, int>, current: map<string, int>)
    requires layer <= tree.Keys && layer <= scoreMap.Keys && layer != {}
    requires current.Keys == aggScore.Keys + layer
    requires forall n :: n in aggScore && n !in layer ==> current[n] == aggScore[n]
    requires forall n :: n in layer ==> current[n] == ApplyAggFunc(n, scoreMap, tree, aggScore, agg)
    ensures Processed(tree, scoreMap, agg, layer, aggScore) == Ok(current)
  {
    assert current == aggScore + map n | n in layer :: ApplyAggFunc(n, scoreMap, tree, aggScore, agg);
  }

  /** `tree_score(score_map, tree, agg_func)`. The ghost `rounds` counts the
      layers processed: never more than there are classes. */
  method TreeScore(scoreMap: map<string, int>, tree: Tree, agg: seq<int> -> int)
    returns (result: Result<map<string, int>>, ghost rounds: nat)
    ensures result == Propagate(scoreMap, tree, agg)
    ensures result.Ok? ==> result.value.Keys == tree.Keys && Consistent(tree, scoreMap, agg, result.value)
    ensures rounds <= |tree.Keys|
  {
    var aggScore: map<string, int> := map[];
    var processed: set<string> := {};
    var allNodes := tree.Keys;
    var layer := GetLeaves(tree).Keys;
    var r, done := ProcessLayer(scoreMap, tree, agg, layer, aggScore, processed);
    rounds := 0;
    if r.Err? {
      return Err(r.error), rounds;
    }
    aggScore, processed := r.value, done;
    rounds := 1;
    while allNodes - processed != {}
      invariant layer <= aggScore.Keys <= tree.Keys && processed == aggScore.Keys
      invariant Climb(tree, scoreMap, agg, layer, aggScore) == Propagate(scoreMap, tree, agg)
      invariant 1 <= rounds && rounds + |allNodes - processed| <= |allNodes|
      decreases |allNodes - processed|
    {
      var candidates := ParentsOf(tree, layer);
      candidates := candidates - processed;
      if !(candidates <= tree.Keys) {
        return Err(UnknownClass), rounds;
      }
      var next := set c | c in candidates && AllChildrenAggd(tree[c].children, aggScore);
      assert NextLayer(tree, layer, aggScore) == Ok(next);
      r, done := ProcessLayer(scoreMap, tree, agg, next, aggScore, processed);
      if r.Err? {
        return Err(r.error), rounds;
      }
      ClimbUnfold(tree, scoreMap, agg, layer, aggScore, next, r.value);
      RestShrinks(allNodes, processed, next);
      layer, aggScore, processed := next, r.value, done;
      rounds := rounds + 1;
    }
    result := Ok(aggScore);
    PropagateCorrect(scoreMap, tree, agg);
  }

  /*** What the propagation computes ***/

  /** Every processed class has a raw score, all its children are
      aggregated with a truthy score, and its aggregate is `agg` of its own
      score followed by its children's aggregates in stored order. */
  predicate Consistent(tree: Tree, scoreMap: map<string, int>, agg: seq<int> -> int, m: map<string, int>)
  {
    forall n :: n in m ==>
      n in tree && n in scoreMap && AllChildrenAggd(tree[n].children, m) &&
      m[n] == agg([scoreMap[n]] + ChildScores(tree[n].children, m))
  }

  /** The children's scores read from two maps that agree on them are equal. */
  lemma ChildScoresFrame(children: seq<string>, m1: map<string, int>, m2: map<string, int>)
    requires forall c :: c in children ==> c in m1 && c in m2 && m1[c] == m2[c]
    ensures ChildScores(children, m1) == ChildScores(children, m2)
  {
  }

  /** Processing a layer of ready, unprocessed classes keeps the
      aggregates consistent. */
  lemma ProcessedConsistent(tree: Tree, scoreMap: map<string, int>, agg: seq<int> -> int,
                            layer: set<string>, m: map<string, int>)
    requires layer <= tree.Keys && layer !! m.Keys
    requires forall n :: n in layer ==> AllChildrenAggd(tree[n].children, m)
    requires Consistent(tree, scoreMap, agg, m)
    requires Processed(tree, scoreMap, agg, layer, m).Ok?
    ensures Consistent(tree, scoreMap, agg, Processed(tree, scoreMap, agg, layer, m).value)
  {
    var m' := Processed(tree, scoreMap, agg, layer, m).value;
    forall n | n in m'
      ensures n in tree && n in scoreMap && AllChildrenAggd(tree[n].children, m') &&
              m'[n] == agg([scoreMap[n]] + ChildScores(tree[n].children, m'))
    {
      var children := tree[n].children;
      if n in layer {
        assert AllChildrenAggd(children, m);
      } else {
        assert n in m;
      }
      forall c | c in children ensures c in m' && m'[c] == m[c] && m[c] != 0 {
        assert c in m.Keys;
      }
      ChildScoresFrame(children, m, m');
    }
  }

  /** What the loop returns on success: all classes, consistently aggregated. */
  lemma {:induction false} ClimbCorrect(tree: Tree, scoreMap: map<string, int>, agg: seq<int> -> int,
                                         layer: set<string>, m: map<string, int>)
    requires layer <= m.Keys <= tree.Keys
    requires Consistent(tree, scoreMap, agg, m)
    requires Climb(tree, scoreMap, agg, layer, m).Ok?
    ensures Climb(tree, scoreMap, agg, layer, m).value.Keys == tree.Keys
    ensures Consistent(tree, scoreMap, agg, Climb(tree, scoreMap, agg, layer, m).value)
    decreases |tree.Keys - m.Keys|
  {
    if tree.Keys - m.Keys != {} {
      var next := NextLayer(tree, layer, m).value;
      ProcessedConsistent(tree, scoreMap, agg, next, m);
      var m' := Processed(tree, scoreMap, agg, next, m).value;
      RestShrinks(tree.Keys, m.Keys, next);
      assert Climb(tree, scoreMap, agg, layer, m) == Climb(tree, scoreMap, agg, next, m');
      ClimbCorrect(tree, scoreMap, agg, next, m');
    } else {
      forall x | x in tree.Keys ensures x in m.Keys {
        assert x !in tree.Keys - m.Keys;
      }
    }
  }

  /** When `tree_score` returns, its result has exactly the classes as keys,
      every class had a raw score, a leaf's aggregate is `agg([own])`, and
      every other class's aggregate is `agg([own] + children's aggregates)`,
      all of its children holding truthy aggregates. */
  lemma PropagateCorrect(scoreMap: map<string, int>, tree: Tree, agg: seq<int> -> int)
    requires Propagate(scoreMap, tree, agg).Ok?
    ensures var r := Propagate(scoreMap, tree, agg).value;
      r.Keys == tree.Keys && tree.Keys <= scoreMap.Keys && Consistent(tree, scoreMap, agg, r) &&
      (forall n :: n in tree && tree[n].children == [] ==> r[n] == agg([scoreMap[n]]))
  {
    var leaves := GetLeaves(tree).Keys;
    ProcessedConsistent(tree, scoreMap, agg, leaves, map[]);
    var m := Processed(tree, scoreMap, agg, leaves, map[]).value;
    ClimbCorrect(tree, scoreMap, agg, leaves, m);
    var r := Propagate(scoreMap, tree, agg).value;
    forall n | n in tree && tree[n].children == []
      ensures r[n] == agg([scoreMap[n]])
    {
      assert ChildScores(tree[n].children, r) == [];
      assert [scoreMap[n]] + ChildScores(tree[n].children, r) == [scoreMap[n]];
    }
  }

  /** A successful propagation read a similarity score for every class. */
  lemma PropagateScored(scoreMap: map<string, int>, tree: Tree, agg: seq<int> -> int)
    requires Propagate(scoreMap, tree, agg).Ok?
    ensures tree.Keys <= scoreMap.Keys
  {
    PropagateCorrect(scoreMap, tree, agg);
  }

  /*** When the propagation fails ***/

  /** With no leaf at all (an empty hierarchy, or one where every class has
      children, as in a cycle) the very first `assert(layer)` fails. */
  lemma PropagateWithoutLeaves(scoreMap: map<string, int>, tree: Tree, agg: seq<int> -> int)
    requires forall n :: n in tree ==> tree[n].children != []
    ensures Propagate(scoreMap, tree, agg) == Err(EmptyLayer)
  {
    assert GetLeaves(tree).Keys == {};
  }

  /** An empty hierarchy fails. */
  lemma PropagateEmptyTree(scoreMap: map<string, int>, agg: seq<int> -> int)
    ensures Propagate(scoreMap, map[], agg) == Err(EmptyLayer)
  {
    PropagateWithoutLeaves(scoreMap, map[], agg);
  }

  /** Two classes that are each other's parent and child form a cycle with
      no leaf: the propagation reports it instead of looping. */
  lemma PropagateTwoCycle(a: string, b: string, scoreMap: map<string, int>, agg: seq<int> -> int)
    requires a != b
    ensures Propagate(scoreMap, map[a := Rels([b], [b]), b := Rels([a], [a])], agg) == Err(EmptyLayer)
  {
    PropagateWithoutLeaves(scoreMap, map[a := Rels([b], [b]), b := Rels([a], [a])], agg);
  }

  /** A class missing from the score map makes the propagation fail. */
  lemma PropagateNeedsAllScores(scoreMap: map<string, int>, tree: Tree, agg: seq<int> -> int, n: string)
    requires n in tree && n !in scoreMap
    ensures Propagate(scoreMap, tree, agg).Err?
  {
    if Propagate(scoreMap, tree, agg).Ok? {
      PropagateCorrect(scoreMap, tree, agg);
    }
  }

  /** A child that does not list its parent back: the leaf is processed, but
      its (empty) parent list yields an empty next layer. */
  lemma PropagateUnlinkedChild(a: string, b: string, scoreMap: map<string, int>, agg: seq<int> -> int)
    requires a != b && a in scoreMap && b in scoreMap
    ensures Propagate(scoreMap, map[a := Rels([b], []), b := Rels([], [])], agg) == Err(EmptyLayer)
  {
    var tree := map[a := Rels([b], []), b := Rels([], [])];
    assert GetLeaves(tree).Keys == {b};
    var m := Processed(tree, scoreMap, agg, {b}, map[]).value;
    assert m.Keys == {b};
    var candidates := ParentsOf(tree, {b}) - m.Keys;
    assert candidates == {};
    assert NextLayer(tree, {b}, m).Ok?;
    assert NextLayer(tree, {b}, m).value == {};
    assert a in tree.Keys - m.Keys;
    assert Climb(tree, scoreMap, agg, {b}, m) == Err(EmptyLayer);
  }

  /** A parent and its one child: with a truthy child aggregate the parent
      gets `agg([own, child's aggregate])`; with a zero one ("not
      aggregated" to the truthiness test) the parent never becomes ready and
      the propagation fails. */
  lemma PropagateOneChild(a: string, b: string, scoreMap: map<string, int>, agg: seq<int> -> int)
    requires a != b && a in scoreMap && b in scoreMap
    ensures var tree := map[a := Rels([b], []), b := Rels([], [a])];
      var child := agg([scoreMap[b]]);
      Propagate(scoreMap, tree, agg) ==
        if child != 0 then Ok(map[b := child, a := agg([scoreMap[a], child])])
        else Err(EmptyLayer)
  {
    var tree := map[a := Rels([b], []), b := Rels([], [a])];
    var child := agg([scoreMap[b]]);
    OneChildLeafLayer(a, b, scoreMap, agg);
    var m := map[b := child];
    if child != 0 {
      OneChildParentLayer(a, b, scoreMap, agg);
      var m2 := map[b := child, a := agg([scoreMap[a], child])];
      assert tree.Keys - m2.Keys == {};
      assert Climb(tree, scoreMap, agg, {b}, m) == Climb(tree, scoreMap, agg, {a}, m2);
    } else {
      assert !AllChildrenAggd(tree[a].children, m);
      var candidates := ParentsOf(tree, {b}) - m.Keys;
      assert (set c | c in candidates && AllChildrenAggd(tree[c].children, m)) == {};
      assert NextLayer(tree, {b}, m) == Ok({});
    }
  }

  /** In the one-child hierarchy, the child is the only leaf, and the parent
      is the only candidate for the next layer. */
  lemma OneChildLeafLayer(a: string, b: string, scoreMap: map<string, int>, agg: seq<int> -> int)
    requires a != b && a in scoreMap && b in scoreMap
    ensures var tree := map[a := Rels([b], []), b := Rels([], [a])];
      var m := map[b := agg([scoreMap[b]])];
      GetLeaves(tree).Keys == {b} &&
      Processed(tree, scoreMap, agg, {b}, map[]) == Ok(m) &&
      ParentsOf(tree, {b}) - m.Keys == {a} && a in tree.Keys - m.Keys
  {
    var tree := map[a := Rels([b], []), b := Rels([], [a])];
    assert GetLeaves(tree).Keys == {b};
    var m := Processed(tree, scoreMap, agg, {b}, map[]).value;
    assert m == map[b := agg([scoreMap[b]])] by {
      assert ApplyAggFunc(b, scoreMap, tree, map[], agg) == agg([scoreMap[b]]);
    }
    assert ParentsOf(tree, {b}) == {a};
  }

  /** With a truthy child, the parent is the next layer, and its aggregate
      is `treeAggFunc` of its own score and the child's. */
  lemma OneChildParentLayer(a: string, b: string, scoreMap: map<string, int>, agg: seq<int> -> int)
    requires a != b && a in scoreMap && b in scoreMap
    requires agg([scoreMap[b]]) != 0
    ensures var tree := map[a := Rels([b], []), b := Rels([], [a])];
      var child := agg([scoreMap[b]]);
      var m := map[b := child];
      NextLayer(tree, {b}, m) == Ok({a}) &&
      Processed(tree, scoreMap, agg, {a}, m) == Ok(map[b := child, a := agg([scoreMap[a], child])])
  {
    var tree := map[a := Rels([b], []), b := Rels([], [a])];
    var child := agg([scoreMap[b]]);
    var m := map[b := child];
    OneChildLeafLayer(a, b, scoreMap, agg);
    assert AllChildrenAggd(tree[a].children, m);
    var candidates := ParentsOf(tree, {b}) - m.Keys;
    assert candidates == {a};
    assert (set c | c in candidates && AllChildrenAggd(tree[c].children, m)) == {a};
    assert [b][1..] == [];
    assert ChildAggregates([b], m) == Some([child] + []);
    assert [child] + [] == [child];
    assert tree[a].children == [b];
    assert ApplyAggFunc(a, scoreMap, tree, m, agg) == agg([scoreMap[a]] + [child]);
    assert [scoreMap[a]] + [child] == [scoreMap[a], child];
    assert NextLayer(tree, {b}, m) == Ok({a});
    var m2 := Processed(tree, scoreMap, agg, {a}, m).value;
    assert m2 == map[b := child, a := agg([scoreMap[a], child])];
  }

  /*** Success on acyclic, consistently linked hierarchies ***/

  /** `rank` strictly decreases from every class to each of its children. */
  predicate Acyclic(tree: Tree, rank: string -> nat)
  {
    forall n :: n in tree ==> forall c :: c in tree[n].children ==> rank(c) < rank(n)
  }

  /** A class of least rank in a non-empty set. */
  lemma {:induction false} LeastRanked(xs: set<string>, rank: string -> nat) returns (u: string)
    requires xs != {}
    ensures u in xs && forall x :: x in xs ==> rank(u) <= rank(x)
    decreases |xs|
  {
    var y :| y in xs;
    if xs == {y} {
      u := y;
    } else {
      var v := LeastRanked(xs - {y}, rank);
      u := if rank(y) < rank(v) then y else v;
    }
  }

  /** The loop's progress invariant: an unprocessed class whose children are
      all processed has one of them in the last layer. */
  predicate WaitsOnLayer(tree: Tree, layer: set<string>, m: map<string, int>)
  {
    forall u ::
      (u in tree && u !in m && tree[u].children != [] &&
       (forall c :: c in tree[u].children ==> c in m)) ==>
      exists c :: c in tree[u].children && c in layer
  }

  /** Following first children from any class reaches a leaf. */
  lemma FindLeaf(tree: Tree, rank: string -> nat, n: string) returns (leaf: string)
    requires Closed(tree) && Acyclic(tree, rank) && n in tree
    ensures leaf in tree && tree[leaf].children == []
    decreases rank(n)
  {
    if tree[n].children == [] {
      leaf := n;
    } else {
      var c := tree[n].children[0];
      leaf := FindLeaf(tree, rank, c);
    }
  }

  /** While the progress invariant holds, every unprocessed class whose
      children are all processed joins the next layer. */
  lemma ReadyJoinNextLayer(tree: Tree, layer: set<string>, m: map<string, int>)
    requires Closed(tree) && LinkedBack(tree)
    requires layer <= m.Keys <= tree.Keys
    requires forall n :: n in m ==> m[n] != 0
    requires WaitsOnLayer(tree, layer, m)
    ensures NextLayer(tree, layer, m).Ok?
    ensures forall v :: (v in tree && v !in m && tree[v].children != [] &&
      (forall c :: c in tree[v].children ==> c in m)) ==> v in NextLayer(tree, layer, m).value
  {
    var candidates := ParentsOf(tree, layer) - m.Keys;
    forall p | p in candidates ensures p in tree {
      var n :| n in layer && p in tree[n].parents;
    }
    var next := NextLayer(tree, layer, m).value;
    forall v | v in tree && v !in m && tree[v].children != [] && (forall c :: c in tree[v].children ==> c in m)
      ensures v in next
    {
      var c :| c in tree[v].children && c in layer;
      assert v in tree[c].parents;
      assert v in candidates;
      assert AllChildrenAggd(tree[v].children, m);
    }
  }

  /** One more step of the loop succeeds and keeps the invariants. */
  lemma ClimbStep(tree: Tree, scoreMap: map<string, int>, agg: seq<int> -> int, rank: string -> nat,
                  layer: set<string>, m: map<string, int>)
    requires Closed(tree) && LinkedBack(tree) && Acyclic(tree, rank)
    requires tree.Keys <= scoreMap.Keys && forall xs :: agg(xs) != 0
    requires layer <= m.Keys <= tree.Keys && GetLeaves(tree).Keys <= m.Keys
    requires forall n :: n in m ==> m[n] != 0
    requires WaitsOnLayer(tree, layer, m)
    requires tree.Keys - m.Keys != {}
    ensures NextLayer(tree, layer, m).Ok?
    ensures var next := NextLayer(tree, layer, m).value;
      next != {} && Processed(tree, scoreMap, agg, next, m).Ok? &&
      var m' := Processed(tree, scoreMap, agg, next, m).value;
      (forall n :: n in m' ==> m'[n] != 0) && WaitsOnLayer(tree, next, m')
  {
    ReadyJoinNextLayer(tree, layer, m);
    var next := NextLayer(tree, layer, m).value;
    // a least-ranked unprocessed class has all its children processed
    var u := LeastRanked(tree.Keys - m.Keys, rank);
    forall c | c in tree[u].children ensures c in m {
      assert c in tree && rank(c) < rank(u);
    }
    assert u !in GetLeaves(tree).Keys;
    assert u in next;
    var m' := Processed(tree, scoreMap, agg, next, m).value;
    forall n | n in m' ensures m'[n] != 0 {
      if n in next {
        ApplyAggFuncNonZero(n, scoreMap, tree, m, agg);
      }
    }
    forall v | v in tree && v !in m' && tree[v].children != [] && (forall c :: c in tree[v].children ==> c in m')
      ensures exists c :: c in tree[v].children && c in next
    {
      assert v !in m && v !in next;
      assert !(forall c :: c in tree[v].children ==> c in m);
    }
  }

  /** The loop succeeds on an acyclic, closed, linked-back hierarchy with
      every class scored and an `agg` that never returns zero. */
  lemma {:induction false} ClimbSucceeds(tree: Tree, scoreMap: map<string, int>, agg: seq<int> -> int,
                                          rank: string -> nat, layer: set<string>, m: map<string, int>)
    requires Closed(tree) && LinkedBack(tree) && Acyclic(tree, rank)
    requires tree.Keys <= scoreMap.Keys && forall xs :: agg(xs) != 0
    requires layer <= m.Keys <= tree.Keys && GetLeaves(tree).Keys <= m.Keys
    requires forall n :: n in m ==> m[n] != 0
    requires WaitsOnLayer(tree, layer, m)
    ensures Climb(tree, scoreMap, agg, layer, m).Ok?
    decreases |tree.Keys - m.Keys|
  {
    if tree.Keys - m.Keys != {} {
      ClimbStep(tree, scoreMap, agg, rank, layer, m);
      var next := NextLayer(tree, layer, m).value;
      var m' := Processed(tree, scoreMap, agg, next, m).value;
      RestShrinks(tree.Keys, m.Keys, next);
      assert Climb(tree, scoreMap, agg, layer, m) == Climb(tree, scoreMap, agg, next, m');
      ClimbSucceeds(tree, scoreMap, agg, rank, next, m');
    }
  }

  /** `tree_score` terminates normally on every non-empty hierarchy that is
      closed, acyclic and whose children list their parents back, when every
      class is scored and `agg` never returns zero. */
  lemma PropagateSucceeds(scoreMap: map<string, int>, tree: Tree, agg: seq<int> -> int, rank: string -> nat)
    requires Closed(tree) && LinkedBack(tree) && Acyclic(tree, rank)
    requires tree != map[] && tree.Keys <= scoreMap.Keys
    requires forall xs :: agg(xs) != 0
    ensures Propagate(scoreMap, tree, agg).Ok?
  {
    var leaves := GetLeaves(tree).Keys;
    var n :| n in tree;
    var leaf := FindLeaf(tree, rank, n);
    assert leaf in leaves;
    LeafLayerReady(scoreMap, tree, agg);
    ClimbSucceeds(tree, scoreMap, agg, rank, leaves, Processed(tree, scoreMap, agg, leaves, map[]).value);
  }

  /** Processing a non-empty set of scored leaves with an `agg` that never
      returns zero succeeds and leaves the climb's invariants in place. */
  lemma LeafLayerReady(scoreMap: map<string, int>, tree: Tree, agg: seq<int> -> int)
    requires GetLeaves(tree).Keys != {} && tree.Keys <= scoreMap.Keys
    requires forall xs :: agg(xs) != 0
    ensures var leaves := GetLeaves(tree).Keys;
      Processed(tree, scoreMap, agg, leaves, map[]).Ok? &&
      var m := Processed(tree, scoreMap, agg, leaves, map[]).value;
      (forall x :: x in m ==> m[x] != 0) && WaitsOnLayer(tree, leaves, m)
  {
    var leaves := GetLeaves(tree).Keys;
    var m := Processed(tree, scoreMap, agg, leaves, map[]).value;
    forall x | x in m ensures m[x] != 0 {
      ApplyAggFuncNonZero(x, scoreMap, tree, map[], agg);
    }
    forall v | v in tree && v !in m && tree[v].children != [] &&
               (forall c :: c in tree[v].children ==> c in m)
      ensures exists c :: c in tree[v].children && c in leaves
    {
      assert tree[v].children[0] in tree[v].children;
    }
  }

  /** Loading a linked-back, acyclic hierarchy and normalising it gives a
      hierarchy on which the propagation succeeds whenever some class
      survives. */
  lemma NormalizedPropagates(raw: Tree, inVocab: string -> bool, scoreMap: map<string, int>,
                             agg: seq<int> -> int, rank: string -> nat)
    requires LinkedBack(raw) && Acyclic(raw, rank)
    requires Normalized(raw, inVocab) != map[] && Normalized(raw, inVocab).Keys <= scoreMap.Keys
    requires forall xs :: agg(xs) != 0
    ensures Propagate(scoreMap, Normalized(raw, inVocab), agg).Ok?
  {
    var t := Normalized(raw, inVocab);
    NormalizedLinkedBack(raw, inVocab);
    assert Acyclic(t, rank) by {
      forall n, c | n in t && c in t[n].children ensures rank(c) < rank(n) {
        assert c in raw[n].children;
      }
    }
    PropagateSucceeds(scoreMap, t, agg, rank);
  }

  /*** The loaded hierarchy and small helpers ***/

  /** The parsed hierarchy and its class list, as `EmbeddedClassTree`
      holds them (`self.tree` and `self.classes`). */
  datatype EmbeddedClassTree = EmbeddedClassTree(tree: Tree, classes: seq<string>)

  /** The class list names every class exactly once. */
  predicate ValidClassTree(t: EmbeddedClassTree)
  {
    Distinct(t.classes) &&
    (forall n :: n in t.classes ==> n in t.tree) &&
    (forall n :: n in t.tree ==> n in t.classes)
  }

  /** Loading: the parsed file (its keys listed in file order by `order`) is
      normalised, and the class list keeps the surviving keys in file order. */
  function LoadClassTree(raw: Tree, order: seq<string>, inVocab: string -> bool): (t: EmbeddedClassTree)
    requires Distinct(order) && forall n :: n in order <==> n in raw
    ensures ValidClassTree(t) && t.tree == Normalized(raw, inVocab)
    ensures forall n :: n in t.classes <==> n in raw && inVocab(n)
  {
    var tree := Normalized(raw, inVocab);
    RetainDistinct(order, tree.Keys);
    EmbeddedClassTree(tree, Retain(order, tree.Keys))
  }

  /** The classes normalisation drops are exactly those failing `inVocab`. */
  lemma NormalizedDropped(raw: Tree, order: seq<string>, inVocab: string -> bool)
    requires Distinct(order) && forall n :: n in order <==> n in raw
    ensures GetDropped(order, LoadClassTree(raw, order, inVocab).classes) == set n | n in raw && !inVocab(n)
  {
  }

  /** `has_relations(rels)`: the class has a child or a parent, i.e. it is not
      isolated. */
  function HasRelations(rels: Rels): (b: bool)
    ensures b <==> rels != Rels([], [])
  {
    |rels.children| > 0 || |rels.parents| > 0
  }

  /** `get_tree_file_name(ontology_name, prune)`. */
  function GetTreeFileName(ontologyName: string, prune: bool): (fileName: string)
    ensures |fileName| == 16 + |ontologyName| + (if prune then 7 else 0)
    ensures fileName[..11] == "class-tree_" && fileName[11..11 + |ontologyName|] == ontologyName
    ensures fileName[11 + |ontologyName|..|fileName| - 5] == (if prune then "_pruned" else "")
    ensures fileName[|fileName| - 5..] == ".json"
  {
    "class-tree_" + ontologyName + (if prune then "_pruned" else "") + ".json"
  }

  /** For a fixed `prune`, different ontologies get different file names. */
  lemma GetTreeFileNameInjective(a: string, b: string, prune: bool)
    requires GetTreeFileName(a, prune) == GetTreeFileName(b, prune)
    ensures a == b
  {
    var f := GetTreeFileName(a, prune);
    assert f[11..11 + |a|] == a && f[11..11 + |b|] == b;
  }

  /** A character missing from both halves is missing from their
      concatenation. */
  lemma AppendAvoids(x: string, y: string, c: char)
    requires c !in x && c !in y
    ensures c !in x + y
  {
    assert forall j :: 0 <= j < |x + y| ==> (x + y)[j] == if j < |x| then x[j] else y[j - |x|];
  }

  /** `path_to_name` of a tree file stored in a directory gives back the file
      name without its `.json` extension. */
  lemma TreeFileNameRoundTrip(dir: string, ontologyName: string, prune: bool)
    requires dir == [] || dir[|dir| - 1] == '/'
    requires '/' !in ontologyName && '.' !in ontologyName
    ensures PathToName(dir + GetTreeFileName(ontologyName, prune)) ==
      "class-tree_" + ontologyName + (if prune then "_pruned" else "")
  {
    var suffix := if prune then "_pruned" else "";
    var stem := "class-tree_" + ontologyName + suffix;
    assert GetTreeFileName(ontologyName, prune) == stem + ".json";
    assert dir + GetTreeFileName(ontologyName, prune) == dir + stem + ".json";
    AppendAvoids("class-tree_", ontologyName, '/');
    AppendAvoids("class-tree_", ontologyName, '.');
    AppendAvoids("class-tree_" + ontologyName, suffix, '/');
    AppendAvoids("class-tree_" + ontologyName, suffix, '.');
    PathToNameOf(dir, stem, ".json");
  }
}
