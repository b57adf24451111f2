/**
 * The body of `main`: split the discovered paths into those whose digest the
 * prior manifest already has and those still to compute, collect the results
 * of the workers as they arrive, and write the manifest.
 *
 * The directory walk, the process pool and the checksum command are outside
 * the model: the walk is the sequence `allFiles`, the pool delivers its
 * results in the order `arrival` (some permutation of the pending paths), and
 * the command's output for each file is `output(file)`.
 */
module Pipeline {
  import opened Outcomes
  import opened PyStr
  import opened PyDict
  import opened Checksum
  import opened Manifest

  /** Discovered paths whose digest the prior manifest already has, in
      traversal order. */
  function Reusable(all: seq<string>, known: map<string, string>): (r: seq<string>)
    ensures forall f :: f in r <==> f in all && f in known
    decreases |all|
  {
    if all == [] then []
    else
      var init := all[..|all| - 1];
      var f := all[|all| - 1];
      assert forall g :: g in all <==> g in init || g == f;
      Reusable(init, known) + (if f in known then [f] else [])
  }

  /** `new_files`: discovered paths the prior manifest lacks, in traversal
      order. */
  function Pending(all: seq<string>, known: map<string, string>): (r: seq<string>)
    ensures forall f :: f in r <==> f in all && f !in known
    decreases |all|
  {
    if all == [] then []
    else
      var init := all[..|all| - 1];
      var f := all[|all| - 1];
      assert forall g :: g in all <==> g in init || g == f;
      Pending(init, known) + (if f in known then [] else [f])
  }

  /** Every discovered path is counted once: as reusable or as pending. */
  lemma {:induction false} PartitionSizes(all: seq<string>, known: map<string, string>)
    ensures |Reusable(all, known)| + |Pending(all, known)| == |all|
    decreases |all|
  {
    if all != [] {
      PartitionSizes(all[..|all| - 1], known);
    }
  }

  /** Filtering a sequence of distinct paths keeps them distinct. */
  lemma {:induction false} FiltersDistinct(all: seq<string>, known: map<string, string>)
    requires Distinct(all)
    ensures Distinct(Reusable(all, known)) && Distinct(Pending(all, known))
    decreases |all|
  {
    if all != [] {
      var init := all[..|all| - 1];
      assert Distinct(init);
      FiltersDistinct(init, known);
      assert all[|all| - 1] !in init;
    }
  }

  /** `hexes` after the filtering loop: each reusable path with the digest
      copied from the prior manifest. */
  function Reused(all: seq<string>, known: map<string, string>): (d: Dict)
    ensures d.Valid()
    ensures forall f :: f in d.m <==> f in all && f in known
    ensures forall f :: f in d.m ==> d.m[f] == known[f]
    decreases |all|
  {
    if all == [] then Empty()
    else
      var init := all[..|all| - 1];
      var f := all[|all| - 1];
      assert forall g :: g in all <==> g in init || g == f;
      var d := Reused(init, known);
      if f in known then d.Put(f, known[f]) else d
  }

  /** `hexes` lists the reused paths in traversal order, not in the order of
      the prior manifest. */
  lemma {:induction false} ReusedInTraversalOrder(all: seq<string>, known: map<string, string>)
    requires Distinct(all)
    ensures Reused(all, known).keys == Reusable(all, known)
    decreases |all|
  {
    if all != [] {
      var init := all[..|all| - 1];
      assert Distinct(init);
      ReusedInTraversalOrder(init, known);
      assert all[|all| - 1] !in init;
    }
  }

  /** The filtering loop of `main`. Every discovered path ends up in exactly
      one of `hexes` and `new_files`; a reused path keeps the prior digest. */
  method Partition(allFiles: seq<string>, existsHexes: map<string, string>)
    returns (hexes: Dict, newFiles: seq<string>)
    ensures hexes == Reused(allFiles, existsHexes)
    ensures newFiles == Pending(allFiles, existsHexes)
    ensures forall f :: f in allFiles ==> (f in hexes.m <==> f !in newFiles)
    ensures forall f :: f in hexes.m ==> f in allFiles && hexes.m[f] == existsHexes[f]
    ensures forall f :: f in newFiles ==> f in allFiles
  {
    hexes := Empty();
    newFiles := [];
    for i := 0 to |allFiles|
      invariant hexes == Reused(allFiles[..i], existsHexes)
      invariant newFiles == Pending(allFiles[..i], existsHexes)
    {
      assert allFiles[..i + 1][..i] == allFiles[..i];
      var file := allFiles[i];
      if file in existsHexes {
        hexes := hexes.Put(file, existsHexes[file]);
      } else {
        newFiles := newFiles + [file];
      }
    }
    assert allFiles[..|allFiles|] == allFiles;
  }

  /** `new_hexes` once the workers' results have come back in the order
      `arrival`, or None when a worker raised. */
  function Fresh(arrival: seq<string>, output: string -> string): (r: Option<Dict>)
    ensures r.Some? ==> r.value.Valid()
    decreases |arrival|
  {
    if arrival == [] then Some(Empty())
    else
      var prev := Fresh(arrival[..|arrival| - 1], output);
      var result := Md5sum(arrival[|arrival| - 1], output);
      if prev.Some? && result.Some? then Some(prev.value.Put(result.value.0, result.value.1))
      else None
  }

  /** The results can all be collected exactly when every arriving path has
      a digest; then `new_hexes` maps each arrived path to its digest and
      nothing else. */
  lemma FreshSpec(arrival: seq<string>, output: string -> string)
    ensures Fresh(arrival, output).Some? <==>
      forall i :: 0 <= i < |arrival| ==> ExtractDigest(output(arrival[i])).Some?
    ensures Fresh(arrival, output).Some? ==>
      forall f :: f in Fresh(arrival, output).value.m <==> f in arrival
    ensures Fresh(arrival, output).Some? ==>
      forall f :: f in Fresh(arrival, output).value.m ==>
        ExtractDigest(output(f)) == Some(Fresh(arrival, output).value.m[f])
  {
    FreshSucceeds(arrival, output);
    FreshContents(arrival, output);
  }

  lemma {:induction false} FreshSucceeds(arrival: seq<string>, output: string -> string)
    ensures Fresh(arrival, output).Some? <==>
      forall i :: 0 <= i < |arrival| ==> ExtractDigest(output(arrival[i])).Some?
    decreases |arrival|
  {
    if arrival != [] {
      var init, f := arrival[..|arrival| - 1], arrival[|arrival| - 1];
      FreshSucceeds(init, output);
      if Fresh(arrival, output).Some? {
        assert Md5sum(f, output).Some?;
        forall i | 0 <= i < |arrival| ensures ExtractDigest(output(arrival[i])).Some? {
          if i < |init| {
            assert arrival[i] == init[i];
          } else {
            assert i == |arrival| - 1;
          }
        }
      } else if Fresh(init, output).Some? {
        assert ExtractDigest(output(arrival[|arrival| - 1])).None?;
      } else {
        var i :| 0 <= i < |init| && ExtractDigest(output(init[i])).None?;
        assert arrival[i] == init[i];
      }
    }
  }

  lemma {:induction false} FreshContents(arrival: seq<string>, output: string -> string)
    ensures Fresh(arrival, output).Some? ==>
      forall f :: f in Fresh(arrival, output).value.m <==> f in arrival
    ensures Fresh(arrival, output).Some? ==>
      forall f :: f in Fresh(arrival, output).value.m ==>
        ExtractDigest(output(f)) == Some(Fresh(arrival, output).value.m[f])
    decreases |arrival|
  {
    if arrival != [] && Fresh(arrival, output).Some? {
      var init, f := arrival[..|arrival| - 1], arrival[|arrival| - 1];
      FreshContents(init, output);
      var prev := Fresh(init, output).value;
      var h := Md5sum(f, output).value.1;
      assert Fresh(arrival, output).value.m == prev.m[f := h];
      assert ExtractDigest(output(f)) == Some(h);
      assert forall g :: g in arrival <==> g in init || g == f;
    }
  }

  /** One worker that raises makes the whole collection fail. */
  lemma FreshStops(arrival: seq<string>, i: nat, output: string -> string)
    requires i < |arrival| && ExtractDigest(output(arrival[i])).None?
    ensures Fresh(arrival, output).None?
  {
    FreshSpec(arrival, output);
  }

  /** When every path arrives once, `new_hexes` lists them in arrival order. */
  lemma {:induction false} FreshInArrivalOrder(arrival: seq<string>, output: string -> string)
    requires Distinct(arrival) && Fresh(arrival, output).Some?
    ensures Fresh(arrival, output).value.keys == arrival
    decreases |arrival|
  {
    if arrival != [] {
      var init := arrival[..|arrival| - 1];
      assert Distinct(init);
      FreshInArrivalOrder(init, output);
      assert arrival[|arrival| - 1] !in init;
    }
  }

  /** The collection loop of `main`: each result bumps `current` and is stored
      in `new_hexes`; `progress` holds the values of `current` as they are
      reported. A worker that raises ends the loop with None, after every
      result that arrived before it was counted and reported. */
  method Collect(newFiles: seq<string>, arrival: seq<string>, output: string -> string)
    returns (newHexes: Option<Dict>, current: nat, progress: seq<nat>)
    requires multiset(arrival) == multiset(newFiles)
    ensures newHexes == Fresh(arrival, output)
    ensures current <= |newFiles|
    ensures newHexes.Some? ==> current == |newFiles|
    ensures newHexes.None? ==>
      (current < |arrival| && Fresh(arrival[..current], output).Some? &&
       Md5sum(arrival[current], output).None?)
    ensures |progress| == current && forall k :: 0 <= k < current ==> progress[k] == k + 1
  {
    assert |arrival| == |multiset(arrival)| == |newFiles|;
    var hexes := Empty();
    current := 0;
    progress := [];
    var i := 0;
    while i < |arrival|
      invariant 0 <= i <= |arrival|
      invariant current == i
      invariant Fresh(arrival[..i], output) == Some(hexes)
      invariant |progress| == i && forall k :: 0 <= k < i ==> progress[k] == k + 1
    {
      assert arrival[..i + 1][..i] == arrival[..i];
      var result := Md5sum(arrival[i], output);
      if result.None? {
        FreshStops(arrival, i, output);
        return None, current, progress;
      }
      var (file, hex) := result.value;
      current := current + 1;
      hexes := hexes.Put(file, hex);
      progress := progress + [current];
      i := i + 1;
    }
    assert arrival[..i] == arrival;
    newHexes := Some(hexes);
  }

  /** The records the writer emits: the reused ones, then the computed ones,
      each group in the insertion order of its dict. */
  function Records(all: seq<string>, known: map<string, string>, computed: Dict): seq<Entry>
    requires computed.Valid()
  {
    Reused(all, known).Items() + computed.Items()
  }

  /** What a run produces: the manifest text, or the error it stops with. */
  function Run(all: seq<string>, known: map<string, string>, arrival: seq<string>,
               output: string -> string): Result<string>
  {
    match Fresh(arrival, output)
    case None => Failure(UsageError)
    case Some(computed) => Success(Render(Records(all, known, computed)))
  }

  /** The arriving results are those of the pending paths, and when the
      discovered paths are distinct each arrives once. */
  lemma ArrivalIsPending(all: seq<string>, known: map<string, string>, arrival: seq<string>)
    requires multiset(arrival) == multiset(Pending(all, known))
    ensures |arrival| == |Pending(all, known)|
    ensures forall f :: f in arrival <==> f in all && f !in known
    ensures Distinct(all) ==> Distinct(arrival)
  {
    assert |arrival| == |multiset(arrival)|;
    forall f ensures f in arrival <==> f in all && f !in known {
      assert f in arrival <==> f in multiset(arrival);
      assert f in Pending(all, known) <==> f in multiset(Pending(all, known));
    }
    if Distinct(all) {
      FiltersDistinct(all, known);
      PermutationDistinct(arrival, Pending(all, known));
    }
  }

  /** After collection the keys of `new_hexes` are exactly the pending paths. */
  lemma CollectedKeys(all: seq<string>, known: map<string, string>, arrival: seq<string>,
                      output: string -> string)
    requires multiset(arrival) == multiset(Pending(all, known))
    requires Fresh(arrival, output).Some?
    ensures forall f :: f in Fresh(arrival, output).value.m <==> f in Pending(all, known)
  {
    ArrivalIsPending(all, known, arrival);
    FreshSpec(arrival, output);
  }

  /** The reused records are the reusable paths in traversal order, each with
      the digest of the prior manifest. */
  lemma ReusedItems(all: seq<string>, known: map<string, string>)
    requires Distinct(all)
    ensures var items := Reused(all, known).Items();
      var reused := Reusable(all, known);
      && |items| == |reused|
      && forall i :: 0 <= i < |items| ==>
           reused[i] in known && items[i] == (reused[i], known[reused[i]])
  {
    ReusedInTraversalOrder(all, known);
  }

  /** The computed records are the arrived paths in arrival order, each with
      its digest in `new_hexes`. */
  lemma FreshItems(arrival: seq<string>, output: string -> string)
    requires Distinct(arrival) && Fresh(arrival, output).Some?
    ensures var computed := Fresh(arrival, output).value;
      var items := computed.Items();
      && |items| == |arrival|
      && (forall f :: f in computed.m <==> f in arrival)
      && forall k :: 0 <= k < |arrival| ==> items[k] == (arrival[k], computed.m[arrival[k]])
  {
    FreshInArrivalOrder(arrival, output);
  }

  /** `es` is the reused group followed by the computed group: first each
      path of `reused` with its digest in `known`, then each path of
      `arrival` with its digest in `m`; no computed path is in `known`. */
  predicate Grouped(es: seq<Entry>, reused: seq<string>, arrival: seq<string>,
                    known: map<string, string>, m: map<string, string>)
  {
    && |es| == |reused| + |arrival|
    && (forall f :: f in arrival ==> f in m && f !in known)
    && (forall i :: 0 <= i < |reused| ==> reused[i] in known && es[i] == (reused[i], known[reused[i]]))
    && (forall k :: 0 <= k < |arrival| ==> es[|reused| + k] == (arrival[k], m[arrival[k]]))
  }

  /** The written manifest has one record per discovered path: first the
      reused paths in traversal order with their prior digests, then the
      computed paths in arrival order with their digests from `new_hexes`,
      whose keys are exactly the arrived paths. */
  lemma ManifestLayout(all: seq<string>, known: map<string, string>, arrival: seq<string>,
                       output: string -> string)
    requires Distinct(all) && multiset(arrival) == multiset(Pending(all, known))
    requires Fresh(arrival, output).Some?
    ensures var computed := Fresh(arrival, output).value;
      && |Records(all, known, computed)| == |all|
      && (forall f :: f in computed.m <==> f in arrival)
      && Grouped(Records(all, known, computed), Reusable(all, known), arrival, known, computed.m)
  {
    var computed := Fresh(arrival, output).value;
    var a := Reused(all, known).Items();
    var b := computed.Items();
    var reused := Reusable(all, known);
    assert |reused| + |arrival| == |all| && Distinct(arrival) &&
      forall f :: f in arrival ==> f !in known
    by {
      ArrivalIsPending(all, known, arrival);
      PartitionSizes(all, known);
    }
    assert |a| == |reused| &&
      forall i :: 0 <= i < |a| ==> reused[i] in known && a[i] == (reused[i], known[reused[i]])
    by {
      ReusedItems(all, known);
    }
    assert |b| == |arrival| && (forall f :: f in computed.m <==> f in arrival) &&
      forall k :: 0 <= k < |arrival| ==> b[k] == (arrival[k], computed.m[arrival[k]])
    by {
      FreshItems(arrival, output);
    }
    JoinGroups(a, b, reused, arrival, known, computed.m);
  }

  /** The two groups of records side by side. */
  lemma JoinGroups(a: seq<Entry>, b: seq<Entry>, reused: seq<string>, arrival: seq<string>,
                   known: map<string, string>, m: map<string, string>)
    requires |a| == |reused|
    requires forall i :: 0 <= i < |a| ==> reused[i] in known && a[i] == (reused[i], known[reused[i]])
    requires |b| == |arrival| && forall f :: f in arrival ==> f in m && f !in known
    requires forall k :: 0 <= k < |b| ==> b[k] == (arrival[k], m[arrival[k]])
    ensures Grouped(a + b, reused, arrival, known, m)
  {
  }

  /** The written manifest names every discovered path exactly once and no
      other path: a prior record whose path was not discovered is dropped. */
  lemma OneRecordPerPath(all: seq<string>, known: map<string, string>, arrival: seq<string>,
                         output: string -> string)
    requires Distinct(all) && multiset(arrival) == multiset(Pending(all, known))
    requires Fresh(arrival, output).Some?
    ensures var es := Records(all, known, Fresh(arrival, output).value);
      && |es| == |all|
      && (forall f :: f in MapOf(es) <==> f in all)
      && forall i, j :: 0 <= i < j < |es| ==> es[i].0 != es[j].0
  {
    var computed := Fresh(arrival, output).value;
    var es := Records(all, known, computed);
    var reused := Reusable(all, known);
    ManifestLayout(all, known, arrival, output);
    assert Distinct(reused) && Distinct(arrival) &&
      forall f :: f in arrival <==> f in all && f !in known
    by {
      FiltersDistinct(all, known);
      ArrivalIsPending(all, known, arrival);
    }
    GroupedKeys(es, reused, arrival, known, computed.m);
    forall i, j | 0 <= i < j < |es| ensures es[i].0 != es[j].0 {
      GroupedOnce(es, reused, arrival, known, computed.m, i, j);
    }
  }

  /** A digest the command printed can be written to the manifest and read
      back. */
  lemma DigestIsClean(h: string)
    requires h != [] && NoSpace(h)
    ensures CleanHex(h)
  {
    forall i | 0 <= i < |h| ensures h[i] != '\t' && h[i] != '\n' && h[i] != '\r' {
      assert !IsSpace(h[i]);
    }
  }

  /** Every digest in `new_hexes` is clean. */
  lemma ComputedIsClean(arrival: seq<string>, output: string -> string)
    requires Fresh(arrival, output).Some?
    ensures forall f :: f in Fresh(arrival, output).value.m ==>
      CleanHex(Fresh(arrival, output).value.m[f])
  {
    var m := Fresh(arrival, output).value.m;
    FreshSpec(arrival, output);
    forall f | f in m ensures CleanHex(m[f]) {
      ExtractDigestSpec(output(f));
      DigestIsClean(m[f]);
    }
  }

  /** The paths of the written records are the reused and the computed ones. */
  lemma GroupedKeys(es: seq<Entry>, reused: seq<string>, arrival: seq<string>,
                    known: map<string, string>, m: map<string, string>)
    requires Grouped(es, reused, arrival, known, m)
    ensures forall p :: p in MapOf(es) <==> p in reused || p in arrival
  {
    forall p ensures p in MapOf(es) <==> p in reused || p in arrival {
      if p in reused {
        var i :| 0 <= i < |reused| && reused[i] == p;
        assert es[i].0 == p;
      }
      if p in arrival {
        var k :| 0 <= k < |arrival| && arrival[k] == p;
        assert es[|reused| + k].0 == p;
      }
      if p in MapOf(es) {
        var i :| 0 <= i < |es| && es[i].0 == p;
        if i < |reused| {
          assert reused[i] == p;
        } else {
          assert arrival[i - |reused|] == p;
        }
      }
    }
  }

  /** With both groups free of repetitions, no path is written twice. */
  lemma GroupedOnce(es: seq<Entry>, reused: seq<string>, arrival: seq<string>,
                    known: map<string, string>, m: map<string, string>, i: nat, j: nat)
    requires Grouped(es, reused, arrival, known, m)
    requires Distinct(reused) && Distinct(arrival)
    requires i < j < |es|
    ensures es[j].0 != es[i].0
  {
    if j < |reused| {
      assert reused[i] != reused[j];
    } else if i < |reused| {
      var k := j - |reused|;
      assert es[j].0 == arrival[k] && arrival[k] in arrival;
    } else {
      assert arrival[i - |reused|] != arrival[j - |reused|];
    }
  }

  /** Read back, every record is the one that gives its path its digest. */
  lemma GroupedLast(es: seq<Entry>, reused: seq<string>, arrival: seq<string>,
                    known: map<string, string>, m: map<string, string>, i: nat)
    requires Grouped(es, reused, arrival, known, m)
    requires Distinct(reused) && Distinct(arrival)
    requires i < |es|
    ensures es[i].0 in MapOf(es) && MapOf(es)[es[i].0] == es[i].1
  {
    forall j | i < j < |es| ensures es[j].0 != es[i].0 {
      GroupedOnce(es, reused, arrival, known, m, i, j);
    }
    LastRecordWins(es, i);
  }

  /** Read back, each reused path keeps its prior digest and each computed
      path gets its digest from `new_hexes`. */
  lemma GroupedValues(es: seq<Entry>, reused: seq<string>, arrival: seq<string>,
                      known: map<string, string>, m: map<string, string>)
    requires Grouped(es, reused, arrival, known, m)
    requires Distinct(reused) && Distinct(arrival)
    ensures forall p :: p in reused ==> p in MapOf(es) && MapOf(es)[p] == known[p]
    ensures forall p :: p in arrival ==> p in MapOf(es) && MapOf(es)[p] == m[p]
  {
    forall p | p in reused ensures p in MapOf(es) && MapOf(es)[p] == known[p] {
      var i :| 0 <= i < |reused| && reused[i] == p;
      GroupedLast(es, reused, arrival, known, m, i);
    }
    forall p | p in arrival ensures p in MapOf(es) && MapOf(es)[p] == m[p] {
      var k :| 0 <= k < |arrival| && arrival[k] == p;
      GroupedLast(es, reused, arrival, known, m, |reused| + k);
    }
  }

  /** Read back, the records give the reused dict merged with the computed
      one. */
  lemma MergedMap(es: seq<Entry>, reused: seq<string>, arrival: seq<string>,
                  known: map<string, string>, m: map<string, string>, d: map<string, string>)
    requires Grouped(es, reused, arrival, known, m)
    requires Distinct(reused) && Distinct(arrival)
    requires forall f :: f in m ==> f in arrival
    requires forall f :: f in d <==> f in reused
    requires forall f :: f in d ==> f in known && d[f] == known[f]
    ensures MapOf(es) == d + m
  {
    GroupedKeys(es, reused, arrival, known, m);
    GroupedValues(es, reused, arrival, known, m);
    var u := d + m;
    assert forall p :: p in MapOf(es) <==> p in u;
    forall p | p in u ensures MapOf(es)[p] == u[p] {
      if p in m {
        assert p in arrival;
      } else {
        assert p in reused;
      }
    }
  }

  /** Records whose paths and digests are all clean can be written. */
  lemma GroupedWritable(es: seq<Entry>, reused: seq<string>, arrival: seq<string>,
                        known: map<string, string>, m: map<string, string>)
    requires Grouped(es, reused, arrival, known, m)
    requires forall f :: f in reused || f in arrival ==> CleanPath(f)
    requires forall f :: f in known ==> CleanHex(known[f])
    requires forall f :: f in m ==> CleanHex(m[f])
    ensures Writable(es)
  {
    forall i | 0 <= i < |es| ensures CleanPath(es[i].0) && CleanHex(es[i].1) {
      if i < |reused| {
        assert reused[i] in reused;
      } else {
        assert arrival[i - |reused|] in arrival;
      }
    }
  }

  /** The records of a successful run form the two groups, without
      repetitions, and can all be written. */
  lemma RecordsGrouped(all: seq<string>, known: map<string, string>, arrival: seq<string>,
                       output: string -> string)
    requires Distinct(all) && multiset(arrival) == multiset(Pending(all, known))
    requires forall f :: f in all ==> CleanPath(f)
    requires forall f :: f in known ==> CleanHex(known[f])
    requires Fresh(arrival, output).Some?
    ensures var computed := Fresh(arrival, output).value;
      var es := Records(all, known, computed);
      && Grouped(es, Reusable(all, known), arrival, known, computed.m)
      && Distinct(Reusable(all, known)) && Distinct(arrival)
      && (forall f :: f in computed.m ==> f in arrival)
      && Writable(es)
  {
    var computed := Fresh(arrival, output).value;
    var reused := Reusable(all, known);
    var es := Records(all, known, computed);
    assert Distinct(arrival) && (forall f :: f in arrival <==> f in all && f !in known) by {
      ArrivalIsPending(all, known, arrival);
    }
    assert Distinct(reused) by {
      FiltersDistinct(all, known);
    }
    ManifestLayout(all, known, arrival, output);
    assert Writable(es) by {
      ComputedIsClean(arrival, output);
      GroupedWritable(es, reused, arrival, known, computed.m);
    }
  }

  /** Reading back the manifest of a successful run gives `hexes` and
      `new_hexes` merged: one digest per discovered path. This needs paths
      that can be written (no tab or line break) and prior digests as
      `validate_infile` delivers them. */
  lemma RunReadsBack(all: seq<string>, known: map<string, string>, arrival: seq<string>,
                     output: string -> string)
    requires Distinct(all) && multiset(arrival) == multiset(Pending(all, known))
    requires forall f :: f in all ==> CleanPath(f)
    requires forall f :: f in known ==> CleanHex(known[f])
    requires Run(all, known, arrival, output).Success?
    ensures Fresh(arrival, output).Some?
    ensures LoadInfile(Some(Run(all, known, arrival, output).value)) ==
      Success(Reused(all, known).m + Fresh(arrival, output).value.m)
  {
    var computed := Fresh(arrival, output).value;
    var reused := Reusable(all, known);
    var es := Records(all, known, computed);
    RecordsGrouped(all, known, arrival, output);
    RoundTrip(es);
    MergedMap(es, reused, arrival, known, computed.m, Reused(all, known).m);
  }

  /** When the prior manifest has every discovered path, every path is
      reused, in traversal order. */
  lemma {:induction false} AllReusable(all: seq<string>, known: map<string, string>)
    requires forall i :: 0 <= i < |all| ==> all[i] in known
    ensures Reusable(all, known) == all
    decreases |all|
  {
    if all != [] {
      var init, f := all[..|all| - 1], all[|all| - 1];
      assert Reusable(init, known) == init by {
        assert forall i :: 0 <= i < |init| ==> init[i] == all[i];
        AllReusable(init, known);
      }
      assert f in known;
      assert Reusable(all, known) == init + [f];
      assert all == init + [f];
    }
  }

  /** When the prior manifest has every discovered path, nothing is
      pending. */
  lemma {:induction false} NonePending(all: seq<string>, known: map<string, string>)
    requires forall i :: 0 <= i < |all| ==> all[i] in known
    ensures Pending(all, known) == []
    decreases |all|
  {
    if all != [] {
      var init := all[..|all| - 1];
      assert forall i :: 0 <= i < |init| ==> init[i] == all[i];
      NonePending(init, known);
    }
  }

  /** Incremental use: run again on the same paths with the manifest just
      written as the prior manifest, and nothing is computed, every path is
      reused in traversal order, and the new manifest reads back to the same
      dict. */
  lemma SecondRunComputesNothing(all: seq<string>, known: map<string, string>,
                                 arrival: seq<string>, output: string -> string)
    requires Distinct(all) && multiset(arrival) == multiset(Pending(all, known))
    requires forall f :: f in all ==> CleanPath(f)
    requires forall f :: f in known ==> CleanHex(known[f])
    requires Run(all, known, arrival, output).Success?
    ensures LoadInfile(Some(Run(all, known, arrival, output).value)).Success?
    ensures var m := LoadInfile(Some(Run(all, known, arrival, output).value)).value;
      && (forall f :: f in m <==> f in all)
      && Pending(all, m) == []
      && Reused(all, m).keys == all
      && Run(all, m, [], output).Success?
      && LoadInfile(Some(Run(all, m, [], output).value)) == Success(m)
  {
    var text := Run(all, known, arrival, output).value;
    RunReadsBack(all, known, arrival, output);
    var m := LoadInfile(Some(text)).value;
    assert forall f :: f in m <==> f in all by {
      ArrivalIsPending(all, known, arrival);
      ManifestLayout(all, known, arrival, output);
    }
    LoadedIsClean(text, m);
    RerunOnOwnManifest(all, m, output);
  }

  /** A run whose prior manifest has exactly the discovered paths, each with
      a digest `validate_infile` can deliver, computes nothing, reuses every
      path in traversal order and writes a manifest that reads back to the
      prior one. */
  lemma RerunOnOwnManifest(all: seq<string>, m: map<string, string>, output: string -> string)
    requires Distinct(all) && forall f :: f in m <==> f in all
    requires forall p :: p in m ==> CleanPath(p) && CleanHex(m[p])
    ensures Pending(all, m) == [] && Reused(all, m).keys == all
    ensures Run(all, m, [], output).Success?
    ensures LoadInfile(Some(Run(all, m, [], output).value)) == Success(m)
  {
    AllReusable(all, m);
    NonePending(all, m);
    ReusedInTraversalOrder(all, m);
    assert Fresh([], output) == Some(Empty());
    RunReadsBack(all, m, [], output);
    assert Reused(all, m).m + Empty().m == m by {
      ReusedAll(all, m);
      MergeNothing(Reused(all, m).m);
    }
  }

  /** Merging in an empty `new_hexes` leaves a dict unchanged. Kept apart so
      that the map merge is reasoned about without the rest of a run in scope. */
  lemma MergeNothing(d: map<string, string>)
    ensures d + Empty().m == d
  {
  }

  /** Reusing every path of a prior manifest that holds exactly the
      discovered paths copies that manifest. */
  lemma ReusedAll(all: seq<string>, m: map<string, string>)
    requires forall f :: f in m <==> f in all
    ensures Reused(all, m).m == m
  {
    var d := Reused(all, m).m;
    assert forall f :: f in d <==> f in m;
    assert d == m;
  }

  /** `main` without the directory walk, the pool and the file output: filter,
      collect when there is pending work, write. */
  method MainBody(allFiles: seq<string>, existsHexes: map<string, string>, arrival: seq<string>,
              output: string -> string)
    returns (r: Result<string>, progress: seq<nat>)
    requires multiset(arrival) == multiset(Pending(allFiles, existsHexes))
    ensures r == Run(allFiles, existsHexes, arrival, output)
    ensures |progress| <= |Pending(allFiles, existsHexes)|
    ensures forall k :: 0 <= k < |progress| ==> progress[k] == k + 1
    ensures r.Success? ==> |progress| == |Pending(allFiles, existsHexes)|
    ensures r.Failure? ==>
      (|progress| < |arrival| && Fresh(arrival[..|progress|], output).Some? &&
       Md5sum(arrival[|progress|], output).None?)
    ensures Pending(allFiles, existsHexes) == [] ==> progress == []
    ensures allFiles == [] ==> r == Success([])
  {
    var hexes, newFiles := Partition(allFiles, existsHexes);
    var newHexes := Empty();
    progress := [];
    var total := |newFiles|;
    if total > 0 {
      var collected, current;
      collected, current, progress := Collect(newFiles, arrival, output);
      if collected.None? {
        return Failure(UsageError), progress;
      }
      newHexes := collected.value;
    } else {
      assert |arrival| == |multiset(arrival)| == 0;
      assert arrival == [];
    }
    var text := WriteManifest(hexes, newHexes);
    r := Success(text);
  }

  /** A run fails exactly when the command prints nothing but whitespace for
      some discovered path the prior manifest lacks. */
  lemma RunFailsIff(all: seq<string>, known: map<string, string>, arrival: seq<string>,
                    output: string -> string)
    requires multiset(arrival) == multiset(Pending(all, known))
    ensures Run(all, known, arrival, output).Success? <==>
      forall f :: f in all && f !in known ==> !AllSpace(output(f))
    ensures Run(all, known, arrival, output).Failure? ==>
      Run(all, known, arrival, output).error == UsageError
  {
    ArrivalIsPending(all, known, arrival);
    FreshSpec(arrival, output);
    forall f | f in arrival ensures ExtractDigest(output(f)).None? <==> AllSpace(output(f)) {
      ExtractDigestSpec(output(f));
    }
  }
}
