/** Matched downsampling of a null variant table: per gene, in ascending gene
    order, keep every null row when the real table asks for at least as many,
    otherwise draw exactly the requested number of rows without replacement
    with a seeded sampler. */
module Downsampling {
  import opened Tables

  /** One row of the real dataset's gene count table. */
  datatype CountRow = CountRow(geneId: Cell, nVariants: int)

  /** The ways the step fails: the null table has no gene_id column to group
      by, or a group is sampled with a seed the sampler's generator refuses. */
  datatype DownsampleError = MissingGeneColumn | InvalidSeed

  /** The seeds the sampler's generator accepts: 0 to 2^32 - 1. */
  predicate SeedInRange(seed: int) {
    0 <= seed < 0x1_0000_0000
  }

  // ---- The requested count per gene ----

  /** gene -> requested count, built row by row, so that for a gene listed
      twice the later row wins, as when a dictionary is built from an index. */
  function CountMap(counts: seq<CountRow>): map<Cell, int> {
    if counts == [] then map[]
    else
      var last := counts[|counts| - 1];
      CountMap(counts[..|counts| - 1])[last.geneId := last.nVariants]
  }

  /** The count requested for gene `g`, 0 when the count table lacks it. */
  function Requested(counts: seq<CountRow>, g: Cell): int {
    var m := CountMap(counts);
    if g in m then m[g] else 0
  }

  /** A gene missing from the count table is requested 0 times. */
  lemma {:induction false} RequestedAbsent(counts: seq<CountRow>, g: Cell)
    requires forall i :: 0 <= i < |counts| ==> counts[i].geneId != g
    ensures Requested(counts, g) == 0
  {
    if counts != [] {
      RequestedAbsent(counts[..|counts| - 1], g);
    }
  }

  /** A listed gene is requested as many times as its last row says. */
  lemma {:induction false} RequestedLastWins(counts: seq<CountRow>, i: nat)
    requires i < |counts|
    requires forall j :: i < j < |counts| ==> counts[j].geneId != counts[i].geneId
    ensures Requested(counts, counts[i].geneId) == counts[i].nVariants
  {
    if i < |counts| - 1 {
      var init := counts[..|counts| - 1];
      assert init[i] == counts[i];
      RequestedLastWins(init, i);
    }
  }

  // ---- Grouping by gene ----

  function GeneOf(r: Row): Cell {
    Get(r, GENE_ID)
  }

  /** The rows of gene `g`, in table order. */
  function GroupRows(rows: seq<Row>, g: Cell): (group: seq<Row>)
    ensures forall x :: x in group ==> x in rows && GeneOf(x) == g
  {
    if rows == [] then []
    else
      var rest := GroupRows(rows[..|rows| - 1], g);
      var x := rows[|rows| - 1];
      if GeneOf(x) == g then rest + [x] else rest
  }

  lemma {:induction false} GroupRowsEmpty(rows: seq<Row>, g: Cell)
    ensures GroupRows(rows, g) == [] <==> forall x :: x in rows ==> GeneOf(x) != g
  {
    if rows != [] {
      GroupRowsEmpty(rows[..|rows| - 1], g);
      assert rows == rows[..|rows| - 1] + [rows[|rows| - 1]];
    }
  }

  /** Every copy of a row sits in the group of its own gene. */
  lemma {:induction false} GroupRowsCount(rows: seq<Row>, x: Row)
    ensures multiset(GroupRows(rows, GeneOf(x)))[x] == multiset(rows)[x]
  {
    if rows != [] {
      var init := rows[..|rows| - 1];
      GroupRowsCount(init, x);
      assert rows == init + [rows[|rows| - 1]];
    }
  }

  lemma {:induction false} GroupRowsAppend(a: seq<Row>, b: seq<Row>, g: Cell)
    ensures GroupRows(a + b, g) == GroupRows(a, g) + GroupRows(b, g)
  {
    if b != [] {
      var init := b[..|b| - 1];
      GroupRowsAppend(a, init, g);
      assert a + b == (a + init) + [b[|b| - 1]];
      assert (a + b)[..|a + b| - 1] == a + init;
    } else {
      assert a + b == a;
    }
  }

  /** Grouping rows that all belong to one gene gives all of them or none. */
  lemma {:induction false} GroupRowsUniform(rows: seq<Row>, h: Cell, g: Cell)
    requires forall x :: x in rows ==> GeneOf(x) == h
    ensures GroupRows(rows, g) == if g == h then rows else []
  {
    if rows != [] {
      var init := rows[..|rows| - 1];
      GroupRowsUniform(init, h, g);
      assert rows == init + [rows[|rows| - 1]];
    }
  }

  // ---- The order in which groups come ----

  predicate StrictlyAscending(gs: seq<Cell>) {
    forall i, j :: 0 <= i < j < |gs| ==> CellLess(gs[i], gs[j])
  }

  /** Inserts key `k` into a strictly ascending sequence of keys, unless present. */
  function InsertKey(sorted: seq<Cell>, k: Cell): seq<Cell> {
    if sorted == [] then [k]
    else if sorted[0] == k then sorted
    else if CellLess(k, sorted[0]) then [k] + sorted
    else [sorted[0]] + InsertKey(sorted[1..], k)
  }

  lemma {:induction false} InsertKeyCorrect(sorted: seq<Cell>, k: Cell)
    requires StrictlyAscending(sorted)
    ensures StrictlyAscending(InsertKey(sorted, k))
    ensures forall c :: c in InsertKey(sorted, k) <==> c in sorted || c == k
  {
    if sorted != [] {
      var head, tail := sorted[0], sorted[1..];
      assert sorted == [head] + tail;
      if head == k {
      } else if CellLess(k, head) {
        var res := [k] + sorted;
        forall j | 0 < j < |res| ensures CellLess(res[0], res[j]) {
          if j > 1 {
            CellLessIsStrictTotalOrder(k, head, res[j]);
          }
        }
      } else {
        InsertKeyCorrect(tail, k);
        CellLessIsStrictTotalOrder(head, k, k);
        var res := [head] + InsertKey(tail, k);
        forall j | 0 < j < |res| ensures CellLess(res[0], res[j]) {
          assert res[j] in InsertKey(tail, k);
        }
      }
    }
  }

  /** The distinct non-null genes of the rows, in ascending order: the order
      in which grouping by gene visits the groups. */
  function SortedGenes(rows: seq<Row>): seq<Cell> {
    if rows == [] then []
    else
      var rest := SortedGenes(rows[..|rows| - 1]);
      var g := GeneOf(rows[|rows| - 1]);
      if g == Null then rest else InsertKey(rest, g)
  }

  lemma {:induction false} SortedGenesCorrect(rows: seq<Row>)
    ensures StrictlyAscending(SortedGenes(rows))
    ensures forall g :: g in SortedGenes(rows) <==> g != Null && exists x :: x in rows && GeneOf(x) == g
  {
    if rows != [] {
      var init := rows[..|rows| - 1];
      SortedGenesCorrect(init);
      if GeneOf(rows[|rows| - 1]) != Null {
        InsertKeyCorrect(SortedGenes(init), GeneOf(rows[|rows| - 1]));
      }
      assert rows == init + [rows[|rows| - 1]];
    }
  }

  // ---- The sampler ----

  /** `idx` holds `n` distinct positions into a group of `size` rows. */
  predicate IsDraw(idx: seq<nat>, size: nat, n: nat) {
    && |idx| == n
    && (forall i :: 0 <= i < |idx| ==> idx[i] < size)
    && Distinct(idx)
  }

  /** A seeded sampler without replacement: given the seed, the group size and
      the number wanted (at most the size), it returns that many distinct
      positions. Being a function, it draws the same positions for the same
      arguments. */
  ghost predicate ValidChooser(choose: (int, nat, nat) -> seq<nat>) {
    forall seed: int, size: nat, n: nat :: n <= size ==> IsDraw(choose(seed, size, n), size, n)
  }

  /** The rows of `group` at the positions `idx`, in the order of `idx`. */
  function Pick(group: seq<Row>, idx: seq<nat>): (r: seq<Row>)
    requires forall i :: 0 <= i < |idx| ==> idx[i] < |group|
    ensures |r| == |idx|
    ensures forall x :: x in r ==> x in group
  {
    seq(|idx|, i requires 0 <= i < |idx| => group[idx[i]])
  }

  /** Positions that all fall before the last row pick the same rows from the rest. */
  lemma PickInit(group: seq<Row>, idx: seq<nat>)
    requires group != []
    requires forall i :: 0 <= i < |idx| ==> idx[i] < |group| - 1
    ensures Pick(group, idx) == Pick(group[..|group| - 1], idx)
  {
  }

  /** Distinct positions below `size` that avoid `size - 1` are distinct positions below `size - 1`. */
  lemma DrawWithout(idx: seq<nat>, size: nat, p: nat)
    requires IsDraw(idx, size, |idx|)
    requires p < |idx| && idx[p] == size - 1
    ensures IsDraw(idx[..p] + idx[p + 1..], size - 1, |idx| - 1)
  {
    var rest := idx[..p] + idx[p + 1..];
    forall i | 0 <= i < |rest| ensures rest[i] < size - 1 && rest[i] == idx[if i < p then i else i + 1] {
    }
    forall i, j | 0 <= i < j < |rest| ensures rest[i] != rest[j] {
      assert rest[i] == idx[if i < p then i else i + 1];
      assert rest[j] == idx[if j < p then j else j + 1];
    }
  }

  /** A draw that takes the last row at position p picks that row, with the
      rest of the draw picking from the other rows around it. */
  lemma PickDropLast(group: seq<Row>, idx: seq<nat>, p: nat)
    requires group != [] && IsDraw(idx, |group|, |idx|)
    requires p < |idx| && idx[p] == |group| - 1
    ensures IsDraw(idx[..p] + idx[p + 1..], |group| - 1, |idx| - 1)
    ensures multiset(Pick(group, idx)) ==
      multiset(Pick(group[..|group| - 1], idx[..p] + idx[p + 1..])) + multiset{group[|group| - 1]}
  {
    var init, last := group[..|group| - 1], group[|group| - 1];
    var rest := idx[..p] + idx[p + 1..];
    DrawWithout(idx, |group|, p);
    var a, b := Pick(group, idx), Pick(init, rest);
    var c := b[..p] + [last] + b[p..];
    forall k | 0 <= k < |a| ensures a[k] == c[k] {
      if k < p {
        assert rest[k] == idx[k] && a[k] == group[idx[k]] && b[k] == init[rest[k]];
      } else if k > p {
        assert rest[k - 1] == idx[k] && a[k] == group[idx[k]] && b[k - 1] == init[rest[k - 1]];
      }
    }
    assert a == c;
    assert b == b[..p] + b[p..];
  }

  /** Rows picked at distinct positions are a sub-multiset of the group. */
  lemma {:induction false} PickSubMultiset(group: seq<Row>, idx: seq<nat>)
    requires IsDraw(idx, |group|, |idx|)
    ensures multiset(Pick(group, idx)) <= multiset(group)
    decreases |group|
  {
    if group != [] {
      var init, last := group[..|group| - 1], group[|group| - 1];
      assert group == init + [last];
      if p :| 0 <= p < |idx| && idx[p] == |group| - 1 {
        PickDropLast(group, idx, p);
        PickSubMultiset(init, idx[..p] + idx[p + 1..]);
      } else {
        PickInit(group, idx);
        PickSubMultiset(init, idx);
      }
    }
  }

  // ---- The downsampling step ----

  /** What gene `g` contributes: nothing when it is requested 0 or fewer
      times, the whole group when it has no more rows than requested, else a
      draw of exactly the requested number of its rows. */
  function Contribution(rows: seq<Row>, counts: seq<CountRow>, seed: int,
                        choose: (int, nat, nat) -> seq<nat>, g: Cell): seq<Row>
    requires ValidChooser(choose)
  {
    var group := GroupRows(rows, g);
    var nReq := Requested(counts, g);
    if nReq <= 0 || |group| == 0 then []
    else if |group| <= nReq then group
    else Pick(group, choose(seed, |group|, nReq))
  }

  /** The contributions of the genes `gs`, concatenated in the order of `gs`. */
  function Collect(rows: seq<Row>, counts: seq<CountRow>, seed: int,
                   choose: (int, nat, nat) -> seq<nat>, gs: seq<Cell>): seq<Row>
    requires ValidChooser(choose)
  {
    if gs == [] then []
    else Collect(rows, counts, seed, choose, gs[..|gs| - 1])
         + Contribution(rows, counts, seed, choose, gs[|gs| - 1])
  }

  /** Gene `g` has more rows than requested, so its group is sampled. */
  predicate Sampled(rows: seq<Row>, counts: seq<CountRow>, g: Cell) {
    0 < Requested(counts, g) < |GroupRows(rows, g)|
  }

  /** The downsampled null table, or the error that stops the step. */
  function Downsampled(nullTable: Frame, counts: seq<CountRow>, seed: int,
                       choose: (int, nat, nat) -> seq<nat>): Result<Frame, DownsampleError>
    requires ValidChooser(choose)
  {
    if GENE_ID !in nullTable.columns then Failure(MissingGeneColumn)
    else if !SeedInRange(seed) && exists g :: g in SortedGenes(nullTable.rows) && Sampled(nullTable.rows, counts, g) then
      Failure(InvalidSeed)
    else Success(Frame(nullTable.columns,
                       Collect(nullTable.rows, counts, seed, choose, SortedGenes(nullTable.rows))))
  }

  /** The parts joined end to end. */
  function Concat(parts: seq<seq<Row>>): seq<Row> {
    if parts == [] then [] else Concat(parts[..|parts| - 1]) + parts[|parts| - 1]
  }

  /** The step as the program runs it: a loop over the gene groups that
      appends each group's kept rows to a list of parts, then concatenates
      the parts, or returns an empty table with the null table's columns. */
  method DownsampleNullToReal(nullTable: Frame, counts: seq<CountRow>, seed: int,
                              choose: (int, nat, nat) -> seq<nat>)
    returns (r: Result<Frame, DownsampleError>)
    requires ValidChooser(choose)
    ensures r == Downsampled(nullTable, counts, seed, choose)
  {
    if GENE_ID !in nullTable.columns {
      return Failure(MissingGeneColumn);
    }
    var nMap := CountMap(counts);
    var genes := SortedGenes(nullTable.rows);
    var sampledParts: seq<seq<Row>> := [];
    for i := 0 to |genes|
      invariant Concat(sampledParts) == Collect(nullTable.rows, counts, seed, choose, genes[..i])
      invariant !SeedInRange(seed) ==> NoneSampled(nullTable.rows, counts, genes[..i])
    {
      CollectStep(nullTable.rows, counts, seed, choose, genes, i);
      NoneSampledStep(nullTable.rows, counts, genes, i);
      var gene := genes[i];
      var group := GroupRows(nullTable.rows, gene);
      var nReq := if gene in nMap then nMap[gene] else 0;
      assert nReq == Requested(counts, gene);
      if nReq <= 0 {
        SkippedGene(nullTable.rows, counts, seed, choose, gene);
        continue;
      }
      var avail := |group|;
      if avail == 0 {
        SkippedGene(nullTable.rows, counts, seed, choose, gene);
        continue;
      }
      if avail <= nReq {
        WholeGene(nullTable.rows, counts, seed, choose, gene);
        ConcatAppend(sampledParts, group);
        sampledParts := sampledParts + [group];
      } else {
        SampledGene(nullTable.rows, counts, seed, choose, gene);
        // the sampler's generator refuses a seed outside its range
        if !SeedInRange(seed) {
          DownsampledSeedFailure(nullTable, counts, seed, choose, gene);
          return Failure(InvalidSeed);
        }
        var taken := Pick(group, choose(seed, avail, nReq));
        ConcatAppend(sampledParts, taken);
        sampledParts := sampledParts + [taken];
      }
    }
    assert genes[..|genes|] == genes;
    DownsampledSuccess(nullTable, counts, seed, choose);
    if sampledParts != [] {
      r := Success(Frame(nullTable.columns, Concat(sampledParts)));
    } else {
      r := Success(Frame(nullTable.columns, []));
    }
  }

  /** A sampled gene with a seed out of range makes the step fail. */
  lemma DownsampledSeedFailure(nullTable: Frame, counts: seq<CountRow>, seed: int,
                               choose: (int, nat, nat) -> seq<nat>, g: Cell)
    requires ValidChooser(choose)
    requires GENE_ID in nullTable.columns && !SeedInRange(seed)
    requires g in SortedGenes(nullTable.rows) && Sampled(nullTable.rows, counts, g)
    ensures Downsampled(nullTable, counts, seed, choose) == Failure(InvalidSeed)
  {
  }

  /** With the seed in range, or no gene sampled, the step collects every gene. */
  lemma DownsampledSuccess(nullTable: Frame, counts: seq<CountRow>, seed: int,
                           choose: (int, nat, nat) -> seq<nat>)
    requires ValidChooser(choose)
    requires GENE_ID in nullTable.columns
    requires !SeedInRange(seed) ==> NoneSampled(nullTable.rows, counts, SortedGenes(nullTable.rows))
    ensures Downsampled(nullTable, counts, seed, choose) ==
      Success(Frame(nullTable.columns, Collect(nullTable.rows, counts, seed, choose, SortedGenes(nullTable.rows))))
  {
    if !SeedInRange(seed) {
      NoneSampledCorrect(nullTable.rows, counts, SortedGenes(nullTable.rows));
    }
  }

  lemma NoneSampledStep(rows: seq<Row>, counts: seq<CountRow>, gs: seq<Cell>, i: nat)
    requires i < |gs|
    ensures NoneSampled(rows, counts, gs[..i + 1]) <==>
      NoneSampled(rows, counts, gs[..i]) && !Sampled(rows, counts, gs[i])
  {
    assert gs[..i + 1][..i] == gs[..i];
  }

  /** None of the genes `gs` is sampled. */
  predicate NoneSampled(rows: seq<Row>, counts: seq<CountRow>, gs: seq<Cell>) {
    gs == [] || (NoneSampled(rows, counts, gs[..|gs| - 1]) && !Sampled(rows, counts, gs[|gs| - 1]))
  }

  lemma {:induction false} NoneSampledCorrect(rows: seq<Row>, counts: seq<CountRow>, gs: seq<Cell>)
    ensures NoneSampled(rows, counts, gs) <==> forall g :: g in gs ==> !Sampled(rows, counts, g)
  {
    if gs != [] {
      NoneSampledCorrect(rows, counts, gs[..|gs| - 1]);
      assert gs == gs[..|gs| - 1] + [gs[|gs| - 1]];
    }
  }

  /** A gene requested 0 or fewer times, or without rows, contributes nothing. */
  lemma SkippedGene(rows: seq<Row>, counts: seq<CountRow>, seed: int,
                    choose: (int, nat, nat) -> seq<nat>, g: Cell)
    requires ValidChooser(choose)
    requires Requested(counts, g) <= 0 || |GroupRows(rows, g)| == 0
    ensures Contribution(rows, counts, seed, choose, g) == [] && !Sampled(rows, counts, g)
  {
  }

  /** A gene with rows and no more of them than requested contributes all of them. */
  lemma WholeGene(rows: seq<Row>, counts: seq<CountRow>, seed: int,
                  choose: (int, nat, nat) -> seq<nat>, g: Cell)
    requires ValidChooser(choose)
    requires 0 < |GroupRows(rows, g)| <= Requested(counts, g)
    ensures Contribution(rows, counts, seed, choose, g) == GroupRows(rows, g) && !Sampled(rows, counts, g)
  {
  }

  /** A gene with more rows than requested contributes a draw of its group. */
  lemma SampledGene(rows: seq<Row>, counts: seq<CountRow>, seed: int,
                    choose: (int, nat, nat) -> seq<nat>, g: Cell)
    requires ValidChooser(choose)
    requires 0 < Requested(counts, g) < |GroupRows(rows, g)|
    ensures var group := GroupRows(rows, g);
      var idx := choose(seed, |group|, Requested(counts, g));
      && Sampled(rows, counts, g)
      && IsDraw(idx, |group|, Requested(counts, g))
      && Contribution(rows, counts, seed, choose, g) == Pick(group, idx)
  {
  }

  lemma ConcatAppend(parts: seq<seq<Row>>, x: seq<Row>)
    ensures Concat(parts + [x]) == Concat(parts) + x
  {
    assert (parts + [x])[..|parts|] == parts;
  }

  /** Collecting one more gene appends that gene's contribution. */
  lemma CollectStep(rows: seq<Row>, counts: seq<CountRow>, seed: int,
                    choose: (int, nat, nat) -> seq<nat>, gs: seq<Cell>, i: nat)
    requires ValidChooser(choose)
    requires i < |gs|
    ensures Collect(rows, counts, seed, choose, gs[..i + 1]) ==
      Collect(rows, counts, seed, choose, gs[..i]) + Contribution(rows, counts, seed, choose, gs[i])
  {
    assert gs[..i + 1][..i] == gs[..i];
  }

  // ---- Properties of the step ----

  /** Gene `h` contributes only rows of gene `h`, taken from its group. */
  lemma ContributionRows(rows: seq<Row>, counts: seq<CountRow>, seed: int,
                         choose: (int, nat, nat) -> seq<nat>, h: Cell)
    requires ValidChooser(choose)
    ensures forall x :: x in Contribution(rows, counts, seed, choose, h) ==> GeneOf(x) == h
  {
    var group := GroupRows(rows, h);
    var nReq := Requested(counts, h);
    if 0 < nReq < |group| {
      var taken := Pick(group, choose(seed, |group|, nReq));
      forall x | x in taken ensures GeneOf(x) == h {
        var i :| 0 <= i < |taken| && taken[i] == x;
        assert group[choose(seed, |group|, nReq)[i]] in group;
      }
    }
  }

  /** Collected output restricted to one gene is that gene's contribution when
      the gene is among the (distinct) genes collected, else nothing. */
  lemma {:induction false} CollectGroup(rows: seq<Row>, counts: seq<CountRow>, seed: int,
                                        choose: (int, nat, nat) -> seq<nat>, gs: seq<Cell>, g: Cell)
    requires ValidChooser(choose)
    requires Distinct(gs)
    ensures GroupRows(Collect(rows, counts, seed, choose, gs), g) ==
      if g in gs then Contribution(rows, counts, seed, choose, g) else []
  {
    if gs != [] {
      var init, last := gs[..|gs| - 1], gs[|gs| - 1];
      assert gs == init + [last];
      CollectGroup(rows, counts, seed, choose, init, g);
      GroupRowsAppend(Collect(rows, counts, seed, choose, init),
                      Contribution(rows, counts, seed, choose, last), g);
      ContributionRows(rows, counts, seed, choose, last);
      GroupRowsUniform(Contribution(rows, counts, seed, choose, last), last, g);
      assert last !in init;
    }
  }

  /** What the output holds for one gene `g`: nothing for a null gene or a
      gene requested 0 or fewer times (which includes a gene missing from the
      count table); every row of the gene, in table order, when it has no
      more rows than requested; otherwise exactly the requested number of its
      rows, drawn with the one seed at distinct positions. In every case the
      count is min(requested, available) for a gene requested at least once. */
  lemma DownsampleGene(nullTable: Frame, counts: seq<CountRow>, seed: int,
                       choose: (int, nat, nat) -> seq<nat>, g: Cell)
    requires ValidChooser(choose)
    requires Downsampled(nullTable, counts, seed, choose).Success?
    ensures var out := GroupRows(Downsampled(nullTable, counts, seed, choose).value.rows, g);
      var avail := GroupRows(nullTable.rows, g);
      var nReq := Requested(counts, g);
      && (g == Null || nReq <= 0 ==> out == [])
      && (g != Null && 0 < nReq && |avail| <= nReq ==> out == avail)
      && (g != Null && 0 < nReq < |avail| ==>
            && out == Pick(avail, choose(seed, |avail|, nReq))
            && |out| == nReq
            && multiset(out) <= multiset(avail))
      && |out| == if g == Null || nReq <= 0 then 0 else Min(nReq, |avail|)
  {
    var rows := nullTable.rows;
    var gs := SortedGenes(rows);
    SortedGenesCorrect(rows);
    assert Distinct(gs) by {
      forall i, j | 0 <= i < j < |gs| ensures gs[i] != gs[j] {
        CellLessIsStrictTotalOrder(gs[i], gs[j], gs[j]);
      }
    }
    CollectGroup(rows, counts, seed, choose, gs, g);
    GroupRowsEmpty(rows, g);
    var avail := GroupRows(rows, g);
    var nReq := Requested(counts, g);
    if g == Null {
      assert g !in gs;
    } else if avail != [] {
      assert avail[0] in rows;
      assert g in gs;
      if 0 < nReq < |avail| {
        PickSubMultiset(avail, choose(seed, |avail|, nReq));
      }
    } else {
      assert g !in gs;
    }
  }

  /** Every output row is an unchanged null-table row: the output is a
      sub-multiset of the null table and no longer than it. */
  lemma DownsampleSubMultiset(nullTable: Frame, counts: seq<CountRow>, seed: int,
                              choose: (int, nat, nat) -> seq<nat>)
    requires ValidChooser(choose)
    requires Downsampled(nullTable, counts, seed, choose).Success?
    ensures var out := Downsampled(nullTable, counts, seed, choose).value.rows;
      multiset(out) <= multiset(nullTable.rows) && |out| <= |nullTable.rows|
  {
    var out := Downsampled(nullTable, counts, seed, choose).value.rows;
    var rows := nullTable.rows;
    forall x ensures multiset(out)[x] <= multiset(rows)[x] {
      var g := GeneOf(x);
      GroupRowsCount(out, x);
      GroupRowsCount(rows, x);
      DownsampleGene(nullTable, counts, seed, choose, g);
      var outG, availG := GroupRows(out, g), GroupRows(rows, g);
      if outG == [] {
      } else if outG == availG {
      } else {
        assert multiset(outG) <= multiset(availG);
      }
    }
    assert multiset(out) <= multiset(rows);
    var extra := multiset(rows) - multiset(out);
    assert multiset(rows) == multiset(out) + extra;
  }

  /** Rows of one gene are contiguous and genes come in ascending order. */
  predicate GenesNonDecreasing(rows: seq<Row>) {
    forall i, j :: 0 <= i < j < |rows| ==>
      GeneOf(rows[i]) == GeneOf(rows[j]) || CellLess(GeneOf(rows[i]), GeneOf(rows[j]))
  }

  /** The rows of a collection over strictly ascending genes come in
      ascending gene order, each from one of those genes. */
  lemma {:induction false} CollectOrder(rows: seq<Row>, counts: seq<CountRow>, seed: int,
                                        choose: (int, nat, nat) -> seq<nat>, gs: seq<Cell>)
    requires ValidChooser(choose)
    requires StrictlyAscending(gs)
    ensures var out := Collect(rows, counts, seed, choose, gs);
      && (forall x :: x in out ==> GeneOf(x) in gs)
      && GenesNonDecreasing(out)
  {
    if gs != [] {
      var init, last := gs[..|gs| - 1], gs[|gs| - 1];
      CollectOrder(rows, counts, seed, choose, init);
      ContributionRows(rows, counts, seed, choose, last);
      var front := Collect(rows, counts, seed, choose, init);
      var back := Contribution(rows, counts, seed, choose, last);
      var out := front + back;
      forall i, j | 0 <= i < j < |out|
        ensures GeneOf(out[i]) == GeneOf(out[j]) || CellLess(GeneOf(out[i]), GeneOf(out[j]))
      {
        if i < |front| && j >= |front| {
          assert out[i] in front && out[j] in back;
          var k :| 0 <= k < |init| && init[k] == GeneOf(out[i]);
          assert gs[k] == init[k] && gs[|gs| - 1] == last;
        } else if i >= |front| {
          assert out[i] in back && out[j] in back;
        }
      }
    }
  }

  /** Output rows of one gene are contiguous and genes come in ascending order,
      the order in which grouping by gene visits them. */
  lemma DownsampleOrder(nullTable: Frame, counts: seq<CountRow>, seed: int,
                        choose: (int, nat, nat) -> seq<nat>)
    requires ValidChooser(choose)
    requires Downsampled(nullTable, counts, seed, choose).Success?
    ensures GenesNonDecreasing(Downsampled(nullTable, counts, seed, choose).value.rows)
  {
    var gs := SortedGenes(nullTable.rows);
    SortedGenesCorrect(nullTable.rows);
    CollectOrder(nullTable.rows, counts, seed, choose, gs);
    DownsampledRows(nullTable, counts, seed, choose);
    var out := Downsampled(nullTable, counts, seed, choose).value.rows;
    var col := Collect(nullTable.rows, counts, seed, choose, gs);
    assert out == col;
  }

  /** A successful step returns the collection over the sorted genes. */
  lemma DownsampledRows(nullTable: Frame, counts: seq<CountRow>, seed: int,
                        choose: (int, nat, nat) -> seq<nat>)
    requires ValidChooser(choose)
    requires Downsampled(nullTable, counts, seed, choose).Success?
    ensures Downsampled(nullTable, counts, seed, choose).value.rows ==
      Collect(nullTable.rows, counts, seed, choose, SortedGenes(nullTable.rows))
  {
  }

  /** The step fails without a gene_id column, and with a seed outside the
      generator's range exactly when some non-null gene is sampled. Otherwise
      the result has the null table's columns and no rows exactly when no
      gene of the null table is requested at least once. */
  lemma DownsampleEmpty(nullTable: Frame, counts: seq<CountRow>, seed: int,
                        choose: (int, nat, nat) -> seq<nat>)
    requires ValidChooser(choose)
    ensures Downsampled(nullTable, counts, seed, choose) == Failure(MissingGeneColumn) <==>
      GENE_ID !in nullTable.columns
    ensures Downsampled(nullTable, counts, seed, choose) == Failure(InvalidSeed) <==>
      && GENE_ID in nullTable.columns && !SeedInRange(seed)
      && exists x :: x in nullTable.rows && GeneOf(x) != Null && Sampled(nullTable.rows, counts, GeneOf(x))
    ensures Downsampled(nullTable, counts, seed, choose).Success? ==>
      var out := Downsampled(nullTable, counts, seed, choose).value;
      && out.columns == nullTable.columns
      && (out.rows == [] <==>
            forall x :: x in nullTable.rows && GeneOf(x) != Null ==> Requested(counts, GeneOf(x)) <= 0)
  {
    SortedGenesCorrect(nullTable.rows);
    if Downsampled(nullTable, counts, seed, choose).Success? {
      var out := Downsampled(nullTable, counts, seed, choose).value.rows;
      if out != [] {
        var g := GeneOf(out[0]);
        DownsampleGene(nullTable, counts, seed, choose, g);
        GroupRowsEmpty(out, g);
        GroupRowsEmpty(nullTable.rows, g);
        assert out[0] in out;
      }
      forall x | x in nullTable.rows && GeneOf(x) != Null && Requested(counts, GeneOf(x)) > 0
        ensures out != []
      {
        DownsampleGene(nullTable, counts, seed, choose, GeneOf(x));
        GroupRowsEmpty(nullTable.rows, GeneOf(x));
      }
    }
  }
}
