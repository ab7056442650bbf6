/** How a Desmos-side read of element i finds its value in storage that is
    split into arrays of 10,000 entries: the `_array` selector picks the
    array, the `_index` helper picks the 1-based position inside it. Disk
    and Memory exports emit the same two helpers. */
module Addressing {
  import opened Wrappers
  import opened Util

  /** Entries per emitted data array. */
  const ChunkSize: nat := 10000

  /** One `if(a_rray_num == num) { _data_array }` arm of the selector. */
  datatype Arm = Arm(num: int, target: nat)

  /** The body of the emitted `_array(i_ndex)` function: either one array
      returned outright, or a chain of equality tests on the array number
      ending in an unconditional `else`. */
  datatype Selector = Direct(target: nat) | Chain(tests: seq<Arm>, fallback: nat)

  /** The selector emitted for n data arrays. */
  function SelectorFor(n: nat): (sel: Selector)
    requires n >= 1
  {
    if n == 1 then Direct(0) else Chain(seq(n - 1, k requires 0 <= k => Arm(k, k)), n - 1)
  }

  /** Builds the selector the way the export loops do: arm 0 is the `if`,
      arms 1 .. n-2 are `else if`s and array n-1 is the final `else`. */
  method BuildSelector(n: nat) returns (sel: Selector)
    requires n >= 1
    ensures sel == SelectorFor(n)
  {
    if n == 1 {
      return Direct(0);
    }
    var tests: seq<Arm> := [];
    var fallback := 0;
    for i := 0 to n
      invariant tests == seq(if i < n - 1 then i else n - 1, k requires 0 <= k => Arm(k, k))
      invariant i == n ==> fallback == n - 1
    {
      if i == 0 {
        tests := tests + [Arm(i, i)];
      } else if i == n - 1 {
        fallback := i;
      } else {
        tests := tests + [Arm(i, i)];
      }
    }
    sel := Chain(tests, fallback);
  }

  /** The array the first matching arm names, or the fallback. */
  function FirstMatch(tests: seq<Arm>, a: int, fallback: nat): nat
  {
    if tests == [] then fallback
    else if tests[0].num == a then tests[0].target
    else FirstMatch(tests[1..], a, fallback)
  }

  /** The array the selector returns for array number a. */
  function Choose(sel: Selector, a: int): nat
  {
    match sel
    case Direct(x) => x
    case Chain(tests, fallback) => FirstMatch(tests, a, fallback)
  }

  /** The selector for n arrays returns array a for 0 <= a < n and the last
      array for every other array number. */
  lemma SelectorPicks(n: nat, a: int)
    requires n >= 1
    ensures Choose(SelectorFor(n), a) == if 0 <= a < n then a else n - 1
    ensures Choose(SelectorFor(n), a) < n
  {
    if n > 1 {
      ChainPicks(seq(n - 1, k requires 0 <= k => Arm(k, k)), 0, a, n - 1);
    }
  }

  lemma {:induction false} ChainPicks(tests: seq<Arm>, lo: nat, a: int, fallback: nat)
    requires forall k :: 0 <= k < |tests| ==> tests[k] == Arm(lo + k, lo + k)
    ensures FirstMatch(tests, a, fallback) == if lo <= a < lo + |tests| then a else fallback
    decreases |tests|
  {
    if tests != [] && tests[0].num != a {
      ChainPicks(tests[1..], lo + 1, a, fallback);
    }
  }

  /** `a_rray_num = floor(i_ndex / 10000)`, as emitted. */
  function ArrayNum(i: int): int
  {
    i / ChunkSize
  }

  /** The `_index` helper, `1 + mod(i_ndex - 1, 10000)`: a 1-based position
      inside an array that agrees with i modulo 10,000. */
  function IndexInArray(i: int): (r: int)
    ensures 1 <= r <= ChunkSize
    ensures (r - i) % ChunkSize == 0
  {
    1 + (i - 1) % ChunkSize
  }

  /** Chunk i of the storage list: `data.slice(10000 * i, 10000 * (i + 1))`. */
  function Chunks(data: seq<int>, n: nat): (cs: seq<seq<int>>)
    ensures |cs| == n
  {
    seq(n, i requires 0 <= i < n => Slice(data, ChunkSize * i, ChunkSize * (i + 1)))
  }

  /** The concatenation of a list of arrays. */
  function Concat(cs: seq<seq<int>>): seq<int>
  {
    if cs == [] then [] else Concat(cs[..|cs| - 1]) + cs[|cs| - 1]
  }

  /** Enough chunks hold the whole list: concatenated they give it back. */
  lemma ChunksConcat(data: seq<int>, n: nat)
    requires |data| <= ChunkSize * n
    ensures Concat(Chunks(data, n)) == data
  {
    ChunksPrefix(data, n);
  }

  lemma {:induction false} ChunksPrefix(data: seq<int>, n: nat)
    ensures Concat(Chunks(data, n)) == Slice(data, 0, ChunkSize * n)
  {
    if n > 0 {
      var cs := Chunks(data, n);
      assert cs[..n - 1] == Chunks(data, n - 1);
      ChunksPrefix(data, n - 1);
      var m := ChunkSize * (n - 1);
      if |data| <= m {
        assert Slice(data, 0, ChunkSize * n) == Slice(data, 0, m);
      } else {
        assert Slice(data, 0, ChunkSize * n) == Slice(data, 0, m) + cs[n - 1];
      }
    }
  }

  /** The 1-based element `_read(i_ndex)` yields, as emitted: the selected
      array at the helper's index; `None` where that array is too short. */
  function ReadAsWritten(data: seq<int>, n: nat, i: int): Option<int>
    requires n >= 1
  {
    SelectorPicks(n, ArrayNum(i));
    Fetch(Chunks(data, n)[Choose(SelectorFor(n), ArrayNum(i))], IndexInArray(i))
  }

  /** Element x (1-based) of an array, if present. */
  function Fetch(chunk: seq<int>, x: int): Option<int>
  {
    if 1 <= x <= |chunk| then Some(chunk[x - 1]) else None
  }

  /** The array holding 1-based element i: `floor((i_ndex - 1) / 10000)`. */
  function CorrectedArrayNum(i: int): int
  {
    (i - 1) / ChunkSize
  }

  /** The read with the corrected array number. */
  function CorrectedRead(data: seq<int>, n: nat, i: int): Option<int>
    requires n >= 1
  {
    SelectorPicks(n, CorrectedArrayNum(i));
    Fetch(Chunks(data, n)[Choose(SelectorFor(n), CorrectedArrayNum(i))], IndexInArray(i))
  }

  /** The corrected read returns 1-based element i of the stored list for
      every i in range. */
  lemma CorrectedReadIsElement(data: seq<int>, n: nat, i: int)
    requires n >= 1 && |data| <= ChunkSize * n
    requires 1 <= i <= |data|
    ensures CorrectedRead(data, n, i) == Some(data[i - 1])
  {
    var a := (i - 1) / ChunkSize;
    var x := IndexInArray(i);
    assert x == 1 + (i - 1) % ChunkSize;
    assert ChunkSize * a + (x - 1) == i - 1;
    assert a < n;
    SelectorPicks(n, a);
  }

  /** As emitted, the read is right for every element that is not the last
      of a full array, and for every element when there is one array. */
  lemma ReadAsWrittenAgrees(data: seq<int>, n: nat, i: int)
    requires n >= 1 && |data| <= ChunkSize * n
    requires 1 <= i <= |data|
    requires n == 1 || i % ChunkSize != 0
    ensures ReadAsWritten(data, n, i) == Some(data[i - 1])
  {
    if n == 1 {
      assert |data| <= ChunkSize;
      assert IndexInArray(i) == i;
    } else {
      assert i / ChunkSize == (i - 1) / ChunkSize;
      CorrectedReadIsElement(data, n, i);
    }
  }

  /** As emitted, reading element 10,000 of a store with two full arrays
      yields element 20,000 instead. */
  lemma ReadAsWrittenMisses()
    ensures ReadAsWritten(seq(2 * ChunkSize, k => k), 2, ChunkSize) == Some(2 * ChunkSize - 1)
    ensures CorrectedRead(seq(2 * ChunkSize, k => k), 2, ChunkSize) == Some(ChunkSize - 1)
  {
    var data := seq(2 * ChunkSize, k => k);
    SelectorPicks(2, 1);
    assert IndexInArray(ChunkSize) == ChunkSize;
    CorrectedReadIsElement(data, 2, ChunkSize);
  }
}
