/** The client of nk_ape/ape.py: per-class scores are propagated over the
    class hierarchy, ranked, and turned into the top-n predictions or a
    one-line description.

    The embedding lookups, the cosine similarity matrix and the row
    aggregation that produce the raw similarity scores are not modelled:
    those scores enter as a parameter (`simScores`), aligned with the class
    list. */
module ApeClient {
  import opened Utils
  import opened ClassTree

  /** An initialised client: the loaded hierarchy (`self.tree`) and the
      function that aggregates one class's score list (`tree_agg_func`). */
  datatype Ape = Ape(classTree: EmbeddedClassTree, treeAggFunc: seq<int> -> int)

  predicate Valid(ape: Ape)
  {
    ValidClassTree(ape.classTree)
  }

  /** `ape.classes`. */
  function Classes(ape: Ape): (classes: seq<string>)
    ensures Valid(ape) ==> Distinct(classes) && forall n :: n in classes <==> n in ape.classTree.tree
  {
    ape.classTree.classes
  }

  /*** Aggregating the scores over the hierarchy ***/

  /** `dict(zip(keys, values))`: pairs up to the shorter of the two, a
      repeated key keeping its last value. */
  function ZipToMap(keys: seq<string>, values: seq<int>): (m: map<string, int>)
    ensures forall k :: k in m <==> exists i :: 0 <= i < |keys| && i < |values| && keys[i] == k
  {
    if keys == [] || values == [] then map[]
    else
      var rest := ZipToMap(keys[1..], values[1..]);
      assert forall i :: 0 <= i < |keys[1..]| ==> keys[1..][i] == keys[i + 1];
      map[keys[0] := values[0]] + rest
  }

  /** With distinct keys, every key maps to the value at its own position. */
  lemma {:induction false} ZipToMapAt(keys: seq<string>, values: seq<int>, i: nat)
    requires Distinct(keys) && i < |keys| && i < |values|
    ensures keys[i] in ZipToMap(keys, values) && ZipToMap(keys, values)[keys[i]] == values[i]
  {
    var rest := ZipToMap(keys[1..], values[1..]);
    assert Distinct(keys[1..]) by {
      forall a, b | 0 <= a < b < |keys[1..]| ensures keys[1..][a] != keys[1..][b] {
        assert keys[1..][a] == keys[a + 1] && keys[1..][b] == keys[b + 1];
      }
    }
    if i == 0 {
      forall j | 0 <= j < |keys[1..]| ensures keys[1..][j] != keys[0] {
        assert keys[1..][j] == keys[j + 1];
      }
      assert keys[0] !in rest;
    } else {
      ZipToMapAt(keys[1..], values[1..], i - 1);
      assert keys[1..][i - 1] == keys[i];
    }
  }

  /** With distinct keys, the map holds the last key only if there is a
      value for every key. */
  lemma ZipToMapCovers(keys: seq<string>, values: seq<int>)
    requires Distinct(keys) && keys != []
    requires keys[|keys| - 1] in ZipToMap(keys, values)
    ensures |values| >= |keys|
  {
    var i :| 0 <= i < |keys| && i < |values| && keys[i] == keys[|keys| - 1];
    assert i == |keys| - 1;
  }

  /** Zipping distinct keys with the values a map gives them rebuilds the
      map. */
  lemma ZipToMapOfValues(keys: seq<string>, values: seq<int>, m: map<string, int>)
    requires Distinct(keys) && |values| == |keys|
    requires forall k :: k in m <==> k in keys
    requires forall i :: 0 <= i < |keys| ==> keys[i] in m && values[i] == m[keys[i]]
    ensures ZipToMap(keys, values) == m
  {
    var z := ZipToMap(keys, values);
    forall i | 0 <= i < |keys| ensures keys[i] in z && z[keys[i]] == m[keys[i]] {
      ZipToMapAt(keys, values, i);
    }
    forall k | k in m ensures k in z && z[k] == m[k] {
      var i :| 0 <= i < |keys| && keys[i] == k;
    }
  }

  /** The two shapes `aggregate_tree_scores` accepts: a class-to-score
      dictionary, or an array aligned with `ape.classes`. */
  datatype Scores = ScoreDict(m: map<string, int>) | ScoreArray(a: seq<int>)

  /** `score_map` in `aggregate_tree_scores`. */
  function ScoreMapOf(ape: Ape, scores: Scores): (m: map<string, int>)
    ensures scores.ScoreDict? ==> m == scores.m
    ensures scores.ScoreArray? && Valid(ape) ==>
      (forall k :: k in m <==> exists i :: 0 <= i < |Classes(ape)| && i < |scores.a| && Classes(ape)[i] == k) &&
      forall i :: 0 <= i < |Classes(ape)| && i < |scores.a| ==> m[Classes(ape)[i]] == scores.a[i]
  {
    match scores
    case ScoreDict(m) => m
    case ScoreArray(a) =>
      ZipToMapAll(Classes(ape), a);
      ZipToMap(Classes(ape), a)
  }

  /** `ZipToMapAt` for every position at once, when the keys are distinct. */
  lemma ZipToMapAll(keys: seq<string>, values: seq<int>)
    ensures Distinct(keys) ==> forall i :: 0 <= i < |keys| && i < |values| ==>
      keys[i] in ZipToMap(keys, values) && ZipToMap(keys, values)[keys[i]] == values[i]
  {
    if Distinct(keys) {
      forall i | 0 <= i < |keys| && i < |values|
        ensures keys[i] in ZipToMap(keys, values) && ZipToMap(keys, values)[keys[i]] == values[i]
      {
        ZipToMapAt(keys, values, i);
      }
    }
  }

  /** `aggregate_tree_scores(scores)`: propagate over the hierarchy, then
      read the aggregates back in class order. */
  function AggregateTreeScores(ape: Ape, scores: Scores): (r: Result<seq<int>>)
    requires Valid(ape)
    ensures var p := Propagate(ScoreMapOf(ape, scores), ape.classTree.tree, ape.treeAggFunc);
      (r.Ok? <==> p.Ok?) && (r.Err? ==> r.error == p.error) &&
      (r.Ok? ==> |r.value| == |Classes(ape)| > 0) &&
      (r.Ok? ==> forall i :: 0 <= i < |r.value| ==>
         Classes(ape)[i] in p.value && r.value[i] == p.value[Classes(ape)[i]])
  {
    var scoreMap := ScoreMapOf(ape, scores);
    match Propagate(scoreMap, ape.classTree.tree, ape.treeAggFunc)
    case Err(e) => Err(e)
    case Ok(m) =>
      ClassesCover(ape, m);
      Ok(ValuesAt(Classes(ape), m))
  }

  /** A map over the classes of a non-empty hierarchy holds every entry of
      the non-empty class list. */
  lemma ClassesCover(ape: Ape, m: map<string, int>)
    requires Valid(ape) && ape.classTree.tree.Keys != {} && m.Keys == ape.classTree.tree.Keys
    ensures |Classes(ape)| > 0 && forall i :: 0 <= i < |Classes(ape)| ==> Classes(ape)[i] in m
  {
    var n :| n in ape.classTree.tree.Keys;
    assert n in Classes(ape);
  }

  /** The values of a map read off in the order of a list of its keys. */
  function ValuesAt(keys: seq<string>, m: map<string, int>): (vs: seq<int>)
    requires forall i :: 0 <= i < |keys| ==> keys[i] in m
    ensures |vs| == |keys| && forall i :: 0 <= i < |keys| ==> vs[i] == m[keys[i]]
  {
    seq(|keys|, i requires 0 <= i < |keys| => m[keys[i]])
  }

  /** For similarity scores given as an array, success needs a score for
      every class. */
  lemma AggregateArrayLength(ape: Ape, a: seq<int>)
    requires Valid(ape)
    requires AggregateTreeScores(ape, ScoreArray(a)).Ok?
    ensures |a| >= |Classes(ape)|
  {
    var classes := Classes(ape);
    PropagateScored(ZipToMap(classes, a), ape.classTree.tree, ape.treeAggFunc);
    assert |classes| > 0;
    assert classes[|classes| - 1] in ape.classTree.tree;
    ZipToMapCovers(classes, a);
  }

  /** Zipping the returned array with the classes again gives back the
      propagated map. */
  lemma AggregateRoundTrip(ape: Ape, scores: Scores)
    requires Valid(ape)
    requires AggregateTreeScores(ape, scores).Ok?
    ensures ZipToMap(Classes(ape), AggregateTreeScores(ape, scores).value) ==
      Propagate(ScoreMapOf(ape, scores), ape.classTree.tree, ape.treeAggFunc).value
  {
    var v := AggregateTreeScores(ape, scores).value;
    var m := Propagate(ScoreMapOf(ape, scores), ape.classTree.tree, ape.treeAggFunc).value;
    ZipToMapOfValues(Classes(ape), v, m);
  }

  /** For similarity scores given as an array, each returned entry is
      `treeAggFunc` of the class's own similarity score followed by its
      children's returned entries, all of them truthy. */
  lemma AggregateArrayScores(ape: Ape, a: seq<int>)
    requires Valid(ape)
    requires AggregateTreeScores(ape, ScoreArray(a)).Ok?
    ensures var v := AggregateTreeScores(ape, ScoreArray(a)).value;
      var classes := Classes(ape);
      var tree := ape.classTree.tree;
      var aggd := ZipToMap(classes, v);
      |a| >= |classes| == |v| &&
      forall i :: 0 <= i < |v| ==>
        AllChildrenAggd(tree[classes[i]].children, aggd) &&
        v[i] == ape.treeAggFunc([a[i]] + ChildScores(tree[classes[i]].children, aggd))
  {
    var v := AggregateTreeScores(ape, ScoreArray(a)).value;
    var classes := Classes(ape);
    var tree := ape.classTree.tree;
    var scoreMap := ZipToMap(classes, a);
    AggregateArrayLength(ape, a);
    AggregateRoundTrip(ape, ScoreArray(a));
    PropagateCorrect(scoreMap, tree, ape.treeAggFunc);
    var aggd := ZipToMap(classes, v);
    forall i | 0 <= i < |v|
      ensures AllChildrenAggd(tree[classes[i]].children, aggd) &&
        v[i] == ape.treeAggFunc([a[i]] + ChildScores(tree[classes[i]].children, aggd))
    {
      ZipToMapAt(classes, a, i);
      assert classes[i] in aggd;
    }
  }

  /*** Ranking ***/

  /** `xs[:n]`, a negative `n` counting from the end as Python slices do. */
  function Take<T>(xs: seq<T>, n: int): (ys: seq<T>)
    ensures ys <= xs
    ensures 0 <= n ==> |ys| == if n < |xs| then n else |xs|
    ensures n < 0 ==> |ys| == if -n < |xs| then |xs| + n else 0
  {
    if n >= 0 then (if n < |xs| then xs[..n] else xs)
    else (if -n < |xs| then xs[..|xs| + n] else [])
  }

  /** Every index is a valid position of a list of length `len`. */
  predicate InRange(order: seq<nat>, len: nat)
  {
    forall k :: 0 <= k < |order| ==> order[k] < len
  }

  /** The indices are ordered by non-increasing score. */
  predicate Descending(order: seq<nat>, scores: seq<int>)
    requires InRange(order, |scores|)
  {
    forall a, b :: 0 <= a < b < |order| ==> scores[order[a]] >= scores[order[b]]
  }

  /** `[0, 1, ..., n - 1]`. */
  function Range(n: nat): (r: seq<nat>)
    ensures |r| == n && forall i :: 0 <= i < n ==> r[i] == i
  {
    if n == 0 then [] else Range(n - 1) + [n - 1]
  }

  /** Inserts the index `i` into an ordering, in front of the first index
      with a strictly smaller score. */
  function InsertDesc(i: nat, order: seq<nat>, scores: seq<int>): (r: seq<nat>)
    requires i < |scores| && InRange(order, |scores|)
    ensures |r| == |order| + 1 && InRange(r, |scores|)
  {
    if order == [] then [i]
    else if scores[i] > scores[order[0]] then [i] + order
    else [order[0]] + InsertDesc(i, order[1..], scores)
  }

  /** Inserting adds `i` and keeps every other index. */
  lemma {:induction false} InsertDescMembers(i: nat, order: seq<nat>, scores: seq<int>)
    requires i < |scores| && InRange(order, |scores|)
    ensures forall x :: x in InsertDesc(i, order, scores) <==> x == i || x in order
  {
    if order != [] && scores[i] <= scores[order[0]] {
      InsertDescMembers(i, order[1..], scores);
      assert forall x :: x in order <==> x == order[0] || x in order[1..];
    }
  }

  /** Inserting into a descending ordering gives a descending ordering. */
  lemma {:induction false} InsertDescDescending(i: nat, order: seq<nat>, scores: seq<int>)
    requires i < |scores| && InRange(order, |scores|) && Descending(order, scores)
    ensures Descending(InsertDesc(i, order, scores), scores)
  {
    if order != [] {
      var r := InsertDesc(i, order, scores);
      if scores[i] > scores[order[0]] {
        forall a, b | 0 <= a < b < |r| ensures scores[r[a]] >= scores[r[b]] {
          assert r[b] == order[b - 1];
          if a > 0 {
            assert r[a] == order[a - 1];
          } else {
            assert scores[order[0]] >= scores[order[b - 1]];
          }
        }
      } else {
        var tail := order[1..];
        assert forall k :: 0 <= k < |tail| ==> tail[k] == order[k + 1];
        InsertDescDescending(i, tail, scores);
        InsertDescMembers(i, tail, scores);
        var rest := InsertDesc(i, tail, scores);
        forall a, b | 0 <= a < b < |r| ensures scores[r[a]] >= scores[r[b]] {
          assert r[b] == rest[b - 1];
          if a > 0 {
            assert r[a] == rest[a - 1];
          } else if rest[b - 1] != i {
            assert rest[b - 1] in rest;
            var k :| 0 <= k < |tail| && tail[k] == rest[b - 1];
          }
        }
      }
    }
  }

  /** Inserting a new index into an ordering without repeats repeats nothing. */
  lemma {:induction false} InsertDescDistinct(i: nat, order: seq<nat>, scores: seq<int>)
    requires i < |scores| && InRange(order, |scores|) && i !in order && Distinct(order)
    ensures Distinct(InsertDesc(i, order, scores))
  {
    if order != [] {
      var r := InsertDesc(i, order, scores);
      if scores[i] > scores[order[0]] {
        forall a, b | 0 <= a < b < |r| ensures r[a] != r[b] {
          assert r[b] == order[b - 1];
          if a > 0 {
            assert r[a] == order[a - 1];
          }
        }
      } else {
        var tail := order[1..];
        assert forall k :: 0 <= k < |tail| ==> tail[k] == order[k + 1];
        assert order[0] !in tail;
        InsertDescDistinct(i, tail, scores);
        InsertDescMembers(i, tail, scores);
        var rest := InsertDesc(i, tail, scores);
        forall a, b | 0 <= a < b < |r| ensures r[a] != r[b] {
          assert r[b] == rest[b - 1];
          if a > 0 {
            assert r[a] == rest[a - 1];
          } else {
            assert rest[b - 1] in rest;
          }
        }
      }
    }
  }

  /** Insertion sort of the indices by non-increasing score. Among equal
      scores the larger index comes first, as reversing a stable ascending
      argsort would give. */
  function SortDesc(indices: seq<nat>, scores: seq<int>): (r: seq<nat>)
    requires InRange(indices, |scores|)
    ensures |r| == |indices| && InRange(r, |scores|)
  {
    if indices == [] then []
    else InsertDesc(indices[0], SortDesc(indices[1..], scores), scores)
  }

  /** Sorting permutes the indices and orders them by score. */
  lemma {:induction false} SortDescSpec(indices: seq<nat>, scores: seq<int>)
    requires InRange(indices, |scores|)
    ensures var r := SortDesc(indices, scores);
      (forall x :: x in r <==> x in indices) &&
      Descending(r, scores) &&
      (Distinct(indices) ==> Distinct(r))
  {
    if indices != [] {
      var tail := indices[1..];
      SortDescSpec(tail, scores);
      var sorted := SortDesc(tail, scores);
      InsertDescMembers(indices[0], sorted, scores);
      InsertDescDescending(indices[0], sorted, scores);
      assert forall x :: x in indices <==> x == indices[0] || x in tail;
      if Distinct(indices) {
        assert forall k :: 0 <= k < |tail| ==> tail[k] == indices[k + 1];
        assert indices[0] !in sorted;
        InsertDescDistinct(indices[0], sorted, scores);
      }
    }
  }

  /** `np.argsort(scores)[::-1]`: a permutation of all positions, highest
      score first. */
  function ArgsortDesc(scores: seq<int>): (r: seq<nat>)
    ensures |r| == |scores| && InRange(r, |scores|) && Distinct(r)
    ensures forall i :: 0 <= i < |scores| ==> i in r
    ensures Descending(r, scores)
  {
    var idx := Range(|scores|);
    SortDescSpec(idx, scores);
    assert forall i :: 0 <= i < |scores| ==> idx[i] == i && i in idx;
    SortDesc(idx, scores)
  }

  /** The top positions `r` of `scores` for the slice `[:n]`: as many as
      the slice keeps, distinct, highest score first, and no position left
      out scoring above one kept. */
  predicate TopPositions(scores: seq<int>, n: int, r: seq<nat>)
  {
    (0 <= n ==> |r| == if n < |scores| then n else |scores|) &&
    (n < 0 ==> |r| == if -n < |scores| then |scores| + n else 0) &&
    InRange(r, |scores|) && Distinct(r) && Descending(r, scores) &&
    forall j :: 0 <= j < |scores| && j !in r ==>
      forall k :: 0 <= k < |r| ==> scores[j] <= scores[r[k]]
  }

  /** `np.argsort(scores)[::-1][:n]`. */
  function TopIndices(scores: seq<int>, n: int): (r: seq<nat>)
    ensures TopPositions(scores, n, r)
  {
    var all := ArgsortDesc(scores);
    var r := Take(all, n);
    assert r == all[..|r|];
    PrefixDominates(all, scores, |r|);
    r
  }

  /** A prefix of a descending ordering of all positions scores at least as
      high as every position it leaves out. */
  lemma PrefixDominates(all: seq<nat>, scores: seq<int>, len: nat)
    requires InRange(all, |scores|) && Descending(all, scores) && len <= |all|
    requires forall i :: 0 <= i < |scores| ==> i in all
    ensures forall j :: 0 <= j < |scores| && j !in all[..len] ==>
      forall k :: 0 <= k < len ==> scores[j] <= scores[all[..len][k]]
  {
    var r := all[..len];
    forall j, k | 0 <= j < |scores| && j !in r && 0 <= k < len
      ensures scores[j] <= scores[r[k]]
    {
      assert j in all;
      var p :| 0 <= p < |all| && all[p] == j;
      assert forall q :: 0 <= q < len ==> r[q] == all[q];
      assert p >= len;
    }
  }

  /*** Predictions ***/

  /** One entry of the result of `get_top_classes`. */
  datatype Prediction = Prediction(className: string, score: int)

  /** `get_top_classes(input_text, n_classes)`: an empty input gives no
      predictions; otherwise the classes of the top `nClasses` aggregated
      scores, with those scores. */
  function GetTopClasses(ape: Ape, inputText: seq<string>, nClasses: int, simScores: seq<int>): (r: Result<seq<Prediction>>)
    requires Valid(ape)
    ensures inputText == [] ==> r == Ok([])
    ensures inputText != [] ==> (r.Ok? <==> AggregateTreeScores(ape, ScoreArray(simScores)).Ok?)
  {
    if inputText == [] then Ok([])
    else
      match AggregateTreeScores(ape, ScoreArray(simScores))
      case Err(e) => Err(e)
      case Ok(scores) =>
        Ok(Predictions(Classes(ape), scores, TopIndices(scores, nClasses)))
  }

  /** The predictions for a list of positions: each position's class with
      its aggregated score. */
  function Predictions(classes: seq<string>, scores: seq<int>, inds: seq<nat>): (preds: seq<Prediction>)
    requires InRange(inds, |classes|) && |scores| == |classes|
    ensures |preds| == |inds|
    ensures forall k :: 0 <= k < |preds| ==> preds[k] == Prediction(classes[inds[k]], scores[inds[k]])
  {
    if inds == [] then []
    else [Prediction(classes[inds[0]], scores[inds[0]])] + Predictions(classes, scores, inds[1..])
  }

  /** A ranking of classes by score: each prediction is a class with its own
      score, best first, no class twice, and no class left out scoring above
      one that is named. */
  predicate Ranked(classes: seq<string>, scores: seq<int>, preds: seq<Prediction>)
    requires |scores| == |classes|
  {
    (forall k :: 0 <= k < |preds| ==>
       exists i :: 0 <= i < |classes| && preds[k] == Prediction(classes[i], scores[i])) &&
    (forall k, l :: 0 <= k < l < |preds| ==> preds[k].score >= preds[l].score) &&
    (forall k, l :: 0 <= k < l < |preds| ==> preds[k].className != preds[l].className) &&
    (forall i :: 0 <= i < |classes| && (forall k :: 0 <= k < |preds| ==> preds[k].className != classes[i]) ==>
       forall k :: 0 <= k < |preds| ==> scores[i] <= preds[k].score)
  }

  /** Predictions over descending positions are ordered by score, and over
      distinct positions of distinct classes name no class twice. */
  lemma PredictionsOrdered(classes: seq<string>, scores: seq<int>, inds: seq<nat>)
    requires InRange(inds, |classes|) && |scores| == |classes|
    requires Distinct(classes) && Distinct(inds) && Descending(inds, scores)
    ensures var preds := Predictions(classes, scores, inds);
      (forall k, l :: 0 <= k < l < |preds| ==> preds[k].score >= preds[l].score) &&
      (forall k, l :: 0 <= k < l < |preds| ==> preds[k].className != preds[l].className)
  {
    var preds := Predictions(classes, scores, inds);
    forall k, l | 0 <= k < l < |preds|
      ensures preds[k].score >= preds[l].score && preds[k].className != preds[l].className
    {
      assert inds[k] != inds[l];
      assert preds[k] == Prediction(classes[inds[k]], scores[inds[k]]);
      assert preds[l] == Prediction(classes[inds[l]], scores[inds[l]]);
    }
  }

  /** Each prediction is a class with its own score, and a class left out
      scores no higher than any position kept. */
  lemma PredictionsComplete(classes: seq<string>, scores: seq<int>, inds: seq<nat>)
    requires InRange(inds, |classes|) && |scores| == |classes|
    requires forall j :: 0 <= j < |scores| && j !in inds ==>
      forall k :: 0 <= k < |inds| ==> scores[j] <= scores[inds[k]]
    ensures var preds := Predictions(classes, scores, inds);
      (forall k :: 0 <= k < |preds| ==>
         exists i :: 0 <= i < |classes| && preds[k] == Prediction(classes[i], scores[i])) &&
      (forall i :: 0 <= i < |classes| && (forall k :: 0 <= k < |preds| ==> preds[k].className != classes[i]) ==>
         forall k :: 0 <= k < |preds| ==> scores[i] <= preds[k].score)
  {
    var preds := Predictions(classes, scores, inds);
    forall k | 0 <= k < |preds|
      ensures exists i :: 0 <= i < |classes| && preds[k] == Prediction(classes[i], scores[i])
    {
      var i := inds[k];
      assert preds[k] == Prediction(classes[i], scores[i]);
    }
    forall i | 0 <= i < |classes| && (forall k :: 0 <= k < |preds| ==> preds[k].className != classes[i])
      ensures forall k :: 0 <= k < |preds| ==> scores[i] <= preds[k].score
    {
      forall k | 0 <= k < |inds| ensures inds[k] != i {
        assert preds[k].className == classes[inds[k]];
      }
    }
  }

  /** Predictions over distinct, descending positions of distinct classes,
      leaving out no position that scores above a kept one, are a ranking. */
  lemma PredictionsSpec(classes: seq<string>, scores: seq<int>, inds: seq<nat>)
    requires InRange(inds, |classes|) && |scores| == |classes|
    requires Distinct(classes) && Distinct(inds) && Descending(inds, scores)
    requires forall j :: 0 <= j < |scores| && j !in inds ==>
      forall k :: 0 <= k < |inds| ==> scores[j] <= scores[inds[k]]
    ensures Ranked(classes, scores, Predictions(classes, scores, inds))
  {
    PredictionsOrdered(classes, scores, inds);
    PredictionsComplete(classes, scores, inds);
  }

  /** What `get_top_classes` returns for a non-empty input: as many
      predictions as the slice keeps (exactly `nClasses` when that is at
      most the number of classes), each a class paired with its own
      aggregated score, best first, no class twice, and no class left out
      scoring above a returned one. */
  lemma TopClassesSpec(ape: Ape, inputText: seq<string>, nClasses: int, simScores: seq<int>)
    requires Valid(ape) && inputText != []
    requires GetTopClasses(ape, inputText, nClasses, simScores).Ok?
    ensures var preds := GetTopClasses(ape, inputText, nClasses, simScores).value;
      var scores := AggregateTreeScores(ape, ScoreArray(simScores)).value;
      var classes := Classes(ape);
      (0 <= nClasses <= |classes| ==> |preds| == nClasses) &&
      (nClasses > |classes| ==> |preds| == |classes|) &&
      Ranked(classes, scores, preds)
  {
    var scores := AggregateTreeScores(ape, ScoreArray(simScores)).value;
    var classes := Classes(ape);
    assert GetTopClasses(ape, inputText, nClasses, simScores).value ==
      Predictions(classes, scores, TopIndices(scores, nClasses));
    RankedTop(classes, scores, nClasses);
  }

  /** The predictions over the top `n` positions of distinct classes: as
      many as the slice keeps, and ranked. */
  lemma RankedTop(classes: seq<string>, scores: seq<int>, n: int)
    requires |scores| == |classes| && Distinct(classes)
    ensures var preds := Predictions(classes, scores, TopIndices(scores, n));
      (0 <= n <= |classes| ==> |preds| == n) &&
      (n > |classes| ==> |preds| == |classes|) &&
      Ranked(classes, scores, preds)
  {
    PredictionsSpec(classes, scores, TopIndices(scores, n));
  }

  /** `predict(input_text, n_classes)` is `get_top_classes`. */
  function Predict(ape: Ape, inputText: seq<string>, nClasses: int, simScores: seq<int>): (r: Result<seq<Prediction>>)
    requires Valid(ape)
    ensures r == GetTopClasses(ape, inputText, nClasses, simScores)
  {
    GetTopClasses(ape, inputText, nClasses, simScores)
  }

  /** Position `i` holds the largest score, and no earlier position does. */
  predicate FirstMax(s: seq<int>, i: nat)
    requires i < |s|
  {
    (forall j :: 0 <= j < |s| ==> s[j] <= s[i]) &&
    (forall j :: 0 <= j < i ==> s[j] < s[i])
  }

  /** `np.argmax(scores)`: the first position of the largest score. */
  function Argmax(s: seq<int>): (i: nat)
    requires |s| > 0
    ensures i < |s| && FirstMax(s, i)
  {
    if |s| == 1 then 0
    else
      var k := Argmax(s[..|s| - 1]);
      if s[|s| - 1] > s[k] then |s| - 1 else k
  }

  const SummaryPrefix: string := "The given text can be summarized as "

  /** `get_description(input_text)`: the pluralised name of the class with
      the highest aggregated score (the first one on a tie), after a fixed
      sentence. `pluralize` stands for the inflection library's function. */
  function GetDescription(ape: Ape, simScores: seq<int>, pluralize: string -> string): (r: Result<string>)
    requires Valid(ape)
    ensures r.Err? <==> AggregateTreeScores(ape, ScoreArray(simScores)).Err?
    ensures r.Ok? ==>
      var scores := AggregateTreeScores(ape, ScoreArray(simScores)).value;
      exists i :: 0 <= i < |scores| && FirstMax(scores, i) &&
        r.value == SummaryPrefix + pluralize(Classes(ape)[i])
  {
    match AggregateTreeScores(ape, ScoreArray(simScores))
    case Err(e) => Err(e)
    case Ok(scores) =>
      var top := Argmax(scores);
      assert top < |Classes(ape)|;
      Ok(SummaryPrefix + pluralize(Classes(ape)[top]))
  }
}
