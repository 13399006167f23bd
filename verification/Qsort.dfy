/** qsort of lib/sort.c, on values.  Partition keeps its pivot by index and may return the whole
    count, in which case qsort calls itself with the arguments it was given.  `fuel` bounds the
    steps, so that a run without end is one that no fuel suffices for. */
module Qsort {
  import opened Sort

  datatype Result<T> = Finished(value: T) | OutOfFuel | Stray   // Stray: an index left the array

  /** The first inner loop of partition: i moves up past elements below the pivot. */
  function ScanUp(cmp: Comparator, v: seq<Element>, pivot: nat, i: nat, fuel: nat): Result<nat>
    decreases fuel
  {
    if fuel == 0 then OutOfFuel
    else if i >= |v| || pivot >= |v| then Stray
    else if cmp(v[i], v[pivot]) < 0 then ScanUp(cmp, v, pivot, i + 1, fuel - 1)
    else Finished(i)
  }

  /** The second: j moves down past elements above the pivot, and wraps below 0. */
  function ScanDown(cmp: Comparator, v: seq<Element>, pivot: nat, j: nat, fuel: nat): Result<nat>
    decreases fuel
  {
    if fuel == 0 then OutOfFuel
    else if j >= |v| || pivot >= |v| then Stray
    else if cmp(v[j], v[pivot]) > 0 then if j == 0 then Stray else ScanDown(cmp, v, pivot, j - 1, fuel - 1)
    else Finished(j)
  }

  function PartitionFrom(cmp: Comparator, v: seq<Element>, pivot: nat, i: nat, j: nat, fuel: nat): Result<(seq<Element>, nat)>
    decreases fuel
  {
    if i > j then Finished((v, i))
    else if fuel == 0 then OutOfFuel
    else match ScanUp(cmp, v, pivot, i, fuel)
      case OutOfFuel => OutOfFuel
      case Stray => Stray
      case Finished(i') =>
        match ScanDown(cmp, v, pivot, j, fuel)
        case OutOfFuel => OutOfFuel
        case Stray => Stray
        case Finished(j') =>
          if i' > j' then Finished((v, i'))
          else if i' >= |v| || j' >= |v| then Stray
          else
            var v' := if i' != j' then Swapped(v, i', j') else v;
            PartitionFrom(cmp, v', pivot, i' + 1, if j' > 0 then j' - 1 else 0, fuel - 1)
  }

  function Partition(cmp: Comparator, v: seq<Element>, fuel: nat): Result<(seq<Element>, nat)>
    requires |v| > 0
  {
    PartitionFrom(cmp, v, |v| / 2, 0, |v| - 1, fuel)
  }

  function QuickSort(cmp: Comparator, v: seq<Element>, fuel: nat): Result<seq<Element>>
    decreases fuel
  {
    if |v| <= 1 then Finished(v)
    else if fuel == 0 then OutOfFuel
    else match Partition(cmp, v, fuel)
      case OutOfFuel => OutOfFuel
      case Stray => Stray
      case Finished((w, p)) =>
        if p > |w| then Stray
        else
          match (if p > 1 then QuickSort(cmp, w[..p], fuel - 1) else Finished(w[..p]))
          case OutOfFuel => OutOfFuel
          case Stray => Stray
          case Finished(left) =>
            if p + 1 < |w| then
              match QuickSort(cmp, w[p..], fuel - 1)
              case OutOfFuel => OutOfFuel
              case Stray => Stray
              case Finished(right) => Finished(left + right)
            else Finished(left + w[p..])
  }

  /** Partition leaves an increasing pair as it is and returns 2; any other pair it exchanges and
      returns 1. */
  lemma PairPartition(cmp: Comparator, x: Element, y: Element, fuel: nat)
    requires cmp(y, y) == 0 && (cmp(x, y) < 0 ==> fuel >= 2) && fuel >= 1
    ensures Partition(cmp, [x, y], fuel) == Finished(if cmp(x, y) < 0 then ([x, y], 2) else ([y, x], 1))
  {
    var v := [x, y];
    if cmp(x, y) < 0 {
      assert ScanUp(cmp, v, 1, 1, fuel - 1) == Finished(1);
      assert ScanUp(cmp, v, 1, 0, fuel) == Finished(1);
      assert ScanDown(cmp, v, 1, 1, fuel) == Finished(1);
      assert PartitionFrom(cmp, v, 1, 2, 0, fuel - 1) == Finished((v, 2));
    } else {
      assert ScanUp(cmp, v, 1, 0, fuel) == Finished(0);
      assert ScanDown(cmp, v, 1, 1, fuel) == Finished(1);
      assert Swapped(v, 0, 1) == [y, x];
      assert PartitionFrom(cmp, [y, x], 1, 1, 0, fuel - 1) == Finished(([y, x], 1));
    }
  }

  lemma {:induction false} IncreasingPairNeverEnds(cmp: Comparator, x: Element, y: Element, fuel: nat)
    requires cmp(y, y) == 0 && cmp(x, y) < 0
    ensures QuickSort(cmp, [x, y], fuel) == OutOfFuel
  {
    if fuel >= 2 {
      PairPartition(cmp, x, y, fuel);
      assert [x, y][..2] == [x, y];
      IncreasingPairNeverEnds(cmp, x, y, fuel - 1);
    } else if fuel == 1 {
      assert ScanUp(cmp, [x, y], 1, 1, 0) == OutOfFuel;
      assert ScanUp(cmp, [x, y], 1, 0, 1) == OutOfFuel;
    }
  }

  /** qsort returns on a pair exactly if its first element is not below its second; otherwise no
      number of steps is enough, and it never leaves the array. */
  lemma PairEnds(cmp: Comparator, x: Element, y: Element)
    requires cmp(y, y) == 0
    ensures (exists fuel: nat :: QuickSort(cmp, [x, y], fuel).Finished?) <==> cmp(x, y) >= 0
    ensures (forall fuel: nat :: QuickSort(cmp, [x, y], fuel) == OutOfFuel) <==> cmp(x, y) < 0
  {
    if cmp(x, y) >= 0 {
      PairPartition(cmp, x, y, 1);
      assert QuickSort(cmp, [x, y], 1) == Finished([y, x][..1] + [y, x][1..]);
    } else {
      forall fuel: nat ensures QuickSort(cmp, [x, y], fuel) == OutOfFuel { IncreasingPairNeverEnds(cmp, x, y, fuel); }
    }
  }
}
