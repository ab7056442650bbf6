/** `stringJumpFast` of templates/src/string.ts: candidate strings are packed
    into words, grouped by their word at the current read position
    (`mergeAndSortAscPrefixes`) and compiled into a binary-search decision
    tree (`binarySearch`) that reads one word of the runtime string per
    level. The tree is a datatype rather than the emitted text, and `Eval`
    runs it on the runtime string's words. */
module StringJump {
  import opened Wrappers
  import opened Float
  import opened Util

  /** A candidate: its remaining words and the block to run for it. */
  datatype Entry = Entry(words: seq<int>, code: string)

  /** One `{prefix, rest, code}` record: the candidates whose current word is
      `prefix`, with their remaining words and blocks, paired by position. */
  datatype Group = Group(prefix: int, rest: seq<seq<int>>, code: seq<string>)

  predicate AllNonEmpty(es: seq<Entry>)
  {
    forall j :: 0 <= j < |es| ==> |es[j].words| > 0
  }

  /** No candidate's words equal, or are a proper prefix of, another's. */
  predicate PrefixFree(es: seq<Entry>)
  {
    forall i, j :: 0 <= i < |es| && 0 <= j < |es| && i != j ==> !(es[i].words <= es[j].words)
  }

  predicate WellFormed(g: Group)
  {
    |g.rest| == |g.code| >= 1
  }

  /** The candidates of a group, each rest paired with its block. */
  function Members(g: Group): (es: seq<Entry>)
    requires |g.rest| == |g.code|
    ensures |es| == |g.code|
  {
    seq(|g.rest|, k requires 0 <= k < |g.rest| => Entry(g.rest[k], g.code[k]))
  }

  /** The entries whose first word is `key`, in input order, with that word
      removed. */
  function Filter(es: seq<Entry>, key: int): seq<Entry>
  {
    if es == [] then []
    else
      var e := es[|es| - 1];
      if |e.words| > 0 && e.words[0] == key then Snoc(Filter(es[..|es| - 1], key), Entry(e.words[1..], e.code))
      else Filter(es[..|es| - 1], key)
  }

  predicate DistinctKeys(gs: seq<Group>)
  {
    forall i, j :: 0 <= i < |gs| && 0 <= j < |gs| && i != j ==> gs[i].prefix != gs[j].prefix
  }

  predicate StrictlyAscending(gs: seq<Group>)
  {
    forall i, j :: 0 <= i < j < |gs| ==> gs[i].prefix < gs[j].prefix
  }

  /** The number of candidates over all groups. */
  function TotalSize(gs: seq<Group>): nat
  {
    if gs == [] then 0 else TotalSize(gs[..|gs| - 1]) + |gs[|gs| - 1].code|
  }

  // ---------------------------------------------------------------------
  // mergeAndSortAscPrefixes

  /** `prefix in prefixMap`: the position of the group for `key`, if any. */
  function FindGroup(gs: seq<Group>, key: int): (r: Option<nat>)
    ensures r.Some? ==> r.value < |gs| && gs[r.value].prefix == key
    ensures r.None? ==> forall i :: 0 <= i < |gs| ==> gs[i].prefix != key
  {
    if gs == [] then None
    else if gs[|gs| - 1].prefix == key then Some(|gs| - 1)
    else FindGroup(gs[..|gs| - 1], key)
  }

  /** One round of the dictionary-filling loop: the entry's rest and block
      are pushed onto the group for its first word, created last if new. */
  function AddEntry(gs: seq<Group>, e: Entry): seq<Group>
    requires |e.words| > 0
  {
    var key := e.words[0];
    match FindGroup(gs, key)
    case Some(i) => gs[i := Group(key, Snoc(gs[i].rest, e.words[1..]), Snoc(gs[i].code, e.code))]
    case None => Snoc(gs, Group(key, [e.words[1..]], [e.code]))
  }

  /** `s` with `x` appended, built element by element. */
  function Snoc<T>(s: seq<T>, x: T): (r: seq<T>)
    ensures |r| == |s| + 1 && r[|s|] == x
    ensures forall i :: 0 <= i < |s| ==> r[i] == s[i]
  {
    seq(|s| + 1, i requires 0 <= i <= |s| => if i < |s| then s[i] else x)
  }

  lemma SnocIsAppend<T>(s: seq<T>, x: T)
    ensures Snoc(s, x) == s + [x]
  {
  }

  /** The dictionary after the loop, in the order groups were created. */
  function Collect(es: seq<Entry>): seq<Group>
    requires AllNonEmpty(es)
  {
    if es == [] then [] else AddEntry(Collect(es[..|es| - 1]), es[|es| - 1])
  }

  /** Inserts a group after the last one whose key is not larger. */
  function Insert(gs: seq<Group>, g: Group): seq<Group>
  {
    if gs == [] then [g]
    else if gs[|gs| - 1].prefix <= g.prefix then Snoc(gs, g)
    else Snoc(Insert(gs[..|gs| - 1], g), gs[|gs| - 1])
  }

  /** `valuesArr.sort((a, b) => a.prefix > b.prefix ? 1 : -1)`. */
  function SortGroups(gs: seq<Group>): seq<Group>
  {
    if gs == [] then [] else Insert(SortGroups(gs[..|gs| - 1]), gs[|gs| - 1])
  }

  /** What `mergeAndSortAscPrefixes(values)` returns. */
  function MergedGroups(es: seq<Entry>): seq<Group>
    requires AllNonEmpty(es)
  {
    SortGroups(Collect(es))
  }

  /** `mergeAndSortAscPrefixes`: fills the dictionary entry by entry, then
      sorts its records by key. */
  method MergeAndSortAscPrefixes(values: seq<Entry>) returns (groups: seq<Group>)
    requires AllNonEmpty(values)
    ensures groups == MergedGroups(values)
  {
    var prefixMap: seq<Group> := [];
    for n := 0 to |values|
      invariant prefixMap == Collect(values[..n])
    {
      var value := values[n];
      var prefix := value.words[0];
      var rest := value.words[1..];
      var found := FindGroup(prefixMap, prefix);
      if found.None? {
        SnocIsAppend(prefixMap, Group(prefix, [rest], [value.code]));
        prefixMap := prefixMap + [Group(prefix, [rest], [value.code])];
      } else {
        var i := found.value;
        SnocIsAppend(prefixMap[i].rest, rest);
        SnocIsAppend(prefixMap[i].code, value.code);
        prefixMap := prefixMap[i := Group(prefix, prefixMap[i].rest + [rest], prefixMap[i].code + [value.code])];
      }
      assert values[..n + 1][..n] == values[..n];
    }
    assert values[..|values|] == values;
    groups := SortGroups(prefixMap);
  }

  // Properties of the dictionary-filling loop.

  /** The loop state after the entries `es`: distinct keys, each group holding
      exactly the entries with its key, every entry's key present, and one
      member per entry. */
  predicate CollectOK(gs: seq<Group>, es: seq<Entry>)
    requires AllNonEmpty(es)
  {
    && DistinctKeys(gs)
    && (forall i :: 0 <= i < |gs| ==> WellFormed(gs[i]) && Members(gs[i]) == Filter(es, gs[i].prefix))
    && (forall j :: 0 <= j < |es| ==> FindGroup(gs, es[j].words[0]).Some?)
    && TotalSize(gs) == |es|
  }

  lemma {:induction false} FilterAbsent(es: seq<Entry>, key: int)
    requires forall j :: 0 <= j < |es| ==> |es[j].words| > 0 && es[j].words[0] != key
    ensures Filter(es, key) == []
  {
    if es != [] {
      FilterAbsent(es[..|es| - 1], key);
    }
  }

  lemma {:induction false} FilterSnoc(es: seq<Entry>, e: Entry, key: int)
    ensures Filter(es + [e], key) == if |e.words| > 0 && e.words[0] == key then Snoc(Filter(es, key), Entry(e.words[1..], e.code)) else Filter(es, key)
  {
    assert (es + [e])[..|es|] == es;
  }

  lemma {:induction false} MembersSnoc(g: Group, r: seq<int>, c: string)
    requires |g.rest| == |g.code|
    ensures Members(Group(g.prefix, Snoc(g.rest, r), Snoc(g.code, c))) == Snoc(Members(g), Entry(r, c))
  {
  }

  lemma {:induction false} TotalSizeAppend(gs: seq<Group>, g: Group)
    ensures TotalSize(Snoc(gs, g)) == TotalSize(gs) + |g.code|
  {
    assert Snoc(gs, g)[..|gs|] == gs;
  }

  lemma {:induction false} TotalSizeUpdate(gs: seq<Group>, i: nat, g: Group)
    requires i < |gs|
    ensures TotalSize(gs[i := g]) == TotalSize(gs) - |gs[i].code| + |g.code|
  {
    var init := gs[..|gs| - 1];
    if i < |gs| - 1 {
      assert gs[i := g][..|gs| - 1] == init[i := g];
      TotalSizeUpdate(init, i, g);
    } else {
      assert gs[i := g][..|gs| - 1] == init;
    }
  }

  /** A round of the loop on an existing key. */
  lemma {:induction false} AddExisting(gs: seq<Group>, es: seq<Entry>, e: Entry, i: nat)
    requires AllNonEmpty(es) && |e.words| > 0 && CollectOK(gs, es)
    requires i < |gs| && gs[i].prefix == e.words[0]
    ensures AllNonEmpty(es + [e])
    ensures CollectOK(gs[i := Group(e.words[0], Snoc(gs[i].rest, e.words[1..]), Snoc(gs[i].code, e.code))], es + [e])
  {
    var key := e.words[0];
    var g' := Group(key, Snoc(gs[i].rest, e.words[1..]), Snoc(gs[i].code, e.code));
    var gs' := gs[i := g'];
    var es' := es + [e];
    forall m | 0 <= m < |gs'|
      ensures WellFormed(gs'[m]) && Members(gs'[m]) == Filter(es', gs'[m].prefix)
    {
      FilterSnoc(es, e, gs'[m].prefix);
      if m == i {
        MembersSnoc(gs[i], e.words[1..], e.code);
      }
    }
    forall j | 0 <= j < |es'|
      ensures FindGroup(gs', es'[j].words[0]).Some?
    {
      var m := if j < |es| then FindGroup(gs, es[j].words[0]).value else i;
      assert gs'[m].prefix == es'[j].words[0];
    }
    TotalSizeUpdate(gs, i, g');
  }

  /** A round of the loop on a new key. */
  lemma {:induction false} AddNew(gs: seq<Group>, es: seq<Entry>, e: Entry)
    requires AllNonEmpty(es) && |e.words| > 0 && CollectOK(gs, es)
    requires forall i :: 0 <= i < |gs| ==> gs[i].prefix != e.words[0]
    ensures AllNonEmpty(es + [e])
    ensures CollectOK(Snoc(gs, Group(e.words[0], [e.words[1..]], [e.code])), es + [e])
  {
    var key := e.words[0];
    var g := Group(key, [e.words[1..]], [e.code]);
    var gs' := Snoc(gs, g);
    var es' := es + [e];
    forall j | 0 <= j < |es|
      ensures |es[j].words| > 0 && es[j].words[0] != key
    {
      var m := FindGroup(gs, es[j].words[0]).value;
    }
    FilterAbsent(es, key);
    forall m | 0 <= m < |gs'|
      ensures WellFormed(gs'[m]) && Members(gs'[m]) == Filter(es', gs'[m].prefix)
    {
      FilterSnoc(es, e, gs'[m].prefix);
    }
    forall j | 0 <= j < |es'|
      ensures FindGroup(gs', es'[j].words[0]).Some?
    {
      var m := if j < |es| then FindGroup(gs, es[j].words[0]).value else |gs|;
      assert gs'[m].prefix == es'[j].words[0];
    }
    TotalSizeAppend(gs, g);
  }

  lemma {:induction false} CollectProps(es: seq<Entry>)
    requires AllNonEmpty(es)
    ensures CollectOK(Collect(es), es)
  {
    if es != [] {
      var init := es[..|es| - 1];
      var e := es[|es| - 1];
      assert init + [e] == es;
      CollectProps(init);
      var gs := Collect(init);
      match FindGroup(gs, e.words[0])
      case Some(i) => AddExisting(gs, init, e, i);
      case None => AddNew(gs, init, e);
    }
  }

  // Properties of the sort.

  /** Inserting keeps every group and adds the new one. */
  lemma {:induction false} InsertMembers(gs: seq<Group>, g: Group)
    ensures forall x :: x in Insert(gs, g) <==> x == g || x in gs
  {
    if gs != [] && gs[|gs| - 1].prefix > g.prefix {
      var init, last := gs[..|gs| - 1], gs[|gs| - 1];
      assert init + [last] == gs;
      InsertMembers(init, g);
      SnocIsAppend(Insert(init, g), last);
    } else {
      SnocIsAppend(gs, g);
    }
  }

  /** Inserting a group with a fresh key into ascending groups keeps them
      ascending. */
  lemma {:induction false} InsertAscending(gs: seq<Group>, g: Group)
    requires StrictlyAscending(gs)
    requires forall i :: 0 <= i < |gs| ==> gs[i].prefix != g.prefix
    ensures StrictlyAscending(Insert(gs, g))
  {
    if gs != [] && gs[|gs| - 1].prefix > g.prefix {
      var init, last := gs[..|gs| - 1], gs[|gs| - 1];
      var r := Insert(init, g);
      InsertAscending(init, g);
      InsertMembers(init, g);
      forall j | 0 <= j < |r|
        ensures r[j].prefix < last.prefix
      {
        assert r[j] in r;
        if r[j] != g {
          var m :| 0 <= m < |init| && init[m] == r[j];
          assert gs[m] == r[j];
        }
      }
    }
  }

  lemma {:induction false} TotalSizeInsert(gs: seq<Group>, g: Group)
    ensures TotalSize(Insert(gs, g)) == TotalSize(gs) + |g.code|
  {
    if gs == [] {
      TotalSizeAppend(gs, g);
    } else if gs[|gs| - 1].prefix <= g.prefix {
      TotalSizeAppend(gs, g);
    } else {
      var init, last := gs[..|gs| - 1], gs[|gs| - 1];
      assert init + [last] == gs;
      TotalSizeInsert(init, g);
      TotalSizeAppend(Insert(init, g), last);
      TotalSizeAppend(init, last);
    }
  }

  /** Sorting keeps exactly the groups it is given. */
  lemma {:induction false} SortMembers(gs: seq<Group>)
    ensures forall x :: x in SortGroups(gs) <==> x in gs
  {
    if gs != [] {
      var init, g := gs[..|gs| - 1], gs[|gs| - 1];
      assert init + [g] == gs;
      SortMembers(init);
      InsertMembers(SortGroups(init), g);
    }
  }

  /** Sorting groups with distinct keys puts them in strictly ascending
      order. */
  lemma {:induction false} SortAscending(gs: seq<Group>)
    requires DistinctKeys(gs)
    ensures StrictlyAscending(SortGroups(gs))
  {
    if gs != [] {
      var init, g := gs[..|gs| - 1], gs[|gs| - 1];
      SortAscending(init);
      SortMembers(init);
      var s := SortGroups(init);
      forall i | 0 <= i < |s|
        ensures s[i].prefix != g.prefix
      {
        assert s[i] in s;
        var m :| 0 <= m < |init| && init[m] == s[i];
        assert gs[m] == s[i];
      }
      InsertAscending(s, g);
    }
  }

  /** Sorting keeps the number of candidates. */
  lemma {:induction false} SortSize(gs: seq<Group>)
    ensures TotalSize(SortGroups(gs)) == TotalSize(gs)
  {
    if gs != [] {
      var init, g := gs[..|gs| - 1], gs[|gs| - 1];
      SortSize(init);
      TotalSizeInsert(SortGroups(init), g);
      TotalSizeAppend(init, g);
      SnocIsAppend(init, g);
      assert init + [g] == gs;
    }
  }

  /** `mergeAndSortAscPrefixes` returns groups with distinct keys in strictly
      ascending order; each group holds exactly the candidates whose current
      word is its key, rests and blocks still paired and in input order; each
      candidate's key has a group; and the group sizes add up to the number
      of candidates. */
  lemma {:induction false} MergedProps(es: seq<Entry>)
    requires AllNonEmpty(es)
    ensures var r := MergedGroups(es);
      && StrictlyAscending(r)
      && (forall i :: 0 <= i < |r| ==> WellFormed(r[i]) && Members(r[i]) == Filter(es, r[i].prefix))
      && (forall j :: 0 <= j < |es| ==> FindGroup(r, es[j].words[0]).Some?)
      && TotalSize(r) == |es|
  {
    var c := Collect(es);
    CollectProps(es);
    SortAscending(c);
    SortMembers(c);
    SortSize(c);
    var r := SortGroups(c);
    forall i | 0 <= i < |r|
      ensures WellFormed(r[i]) && Members(r[i]) == Filter(es, r[i].prefix)
    {
      assert r[i] in r;
      var m :| 0 <= m < |c| && c[m] == r[i];
    }
    forall j | 0 <= j < |es|
      ensures FindGroup(r, es[j].words[0]).Some?
    {
      var m := FindGroup(c, es[j].words[0]).value;
      assert c[m] in c;
      var i :| 0 <= i < |r| && r[i] == c[m];
      assert r[i].prefix == es[j].words[0];
    }
  }

  /** The groups hold one member per candidate. */
  lemma {:induction false} MergedSize(es: seq<Entry>)
    requires AllNonEmpty(es)
    ensures TotalSize(MergedGroups(es)) == |es|
  {
    MergedProps(es);
  }

  // Facts about Filter used by the search.

  /** A candidate with first word `key` is in the filter with that word cut,
      at position `k`. */
  lemma {:induction false} FilterHas(es: seq<Entry>, key: int, j: nat) returns (k: nat)
    requires j < |es| && |es[j].words| > 0 && es[j].words[0] == key
    ensures k < |Filter(es, key)| && Filter(es, key)[k] == Entry(es[j].words[1..], es[j].code)
  {
    if j < |es| - 1 {
      k := FilterHas(es[..|es| - 1], key, j);
    } else {
      k := |Filter(es[..|es| - 1], key)|;
    }
  }

  /** Each filtered entry is some input entry with its first word `key` cut. */
  lemma {:induction false} FilterWitness(es: seq<Entry>, key: int, k: nat) returns (i: nat)
    requires k < |Filter(es, key)|
    ensures i < |es| && es[i].words == [key] + Filter(es, key)[k].words
  {
    var init := es[..|es| - 1];
    var e := es[|es| - 1];
    if k < |Filter(init, key)| {
      i := FilterWitness(init, key, k);
    } else {
      i := |es| - 1;
      assert e.words == [key] + e.words[1..];
    }
  }

  /** Every filtered entry is one word shorter than some input entry. */
  lemma {:induction false} FilterBound(es: seq<Entry>, key: int, b: nat)
    requires forall j :: 0 <= j < |es| ==> |es[j].words| <= b + 1
    ensures forall k :: 0 <= k < |Filter(es, key)| ==> |Filter(es, key)[k].words| <= b
  {
    if es != [] {
      FilterBound(es[..|es| - 1], key, b);
    }
  }

  lemma {:induction false} PrefixFreeInit(es: seq<Entry>)
    requires PrefixFree(es) && es != []
    ensures PrefixFree(es[..|es| - 1])
  {
    var init := es[..|es| - 1];
    forall i, j | 0 <= i < |init| && 0 <= j < |init| && i != j
      ensures !(init[i].words <= init[j].words)
    {
      assert init[i] == es[i] && init[j] == es[j];
    }
  }

  /** A prefix-free list of two or more candidates has no empty one, since
      the empty list is a prefix of every other. */
  lemma {:induction false} PrefixFreeNonEmpty(es: seq<Entry>)
    requires PrefixFree(es) && |es| >= 2
    ensures AllNonEmpty(es)
  {
    forall j | 0 <= j < |es| ensures |es[j].words| > 0
    {
      var other := if j == 0 then 1 else 0;
      assert !(es[j].words <= es[other].words);
    }
  }

  /** Neither word list is a prefix of the other. */
  predicate Apart(a: seq<int>, b: seq<int>)
  {
    !(a <= b) && !(b <= a)
  }

  lemma {:induction false} PrefixCons(key: int, a: seq<int>, b: seq<int>)
    ensures a <= b <==> [key] + a <= [key] + b
  {
    if [key] + a <= [key] + b {
      assert ([key] + b)[1..|a| + 1] == b[..|a|];
      assert ([key] + a)[1..] == a;
    }
  }

  /** The last candidate, cut after `key`, is apart from the earlier ones. */
  lemma {:induction false} FilterLastApart(init: seq<Entry>, e: Entry, key: int)
    requires PrefixFree(init + [e])
    requires |e.words| > 0 && e.words[0] == key
    ensures forall k :: 0 <= k < |Filter(init, key)| ==> Apart(Filter(init, key)[k].words, e.words[1..])
  {
    var es := init + [e];
    var f := Filter(init, key);
    var x := e.words[1..];
    assert e.words == [key] + x;
    forall k | 0 <= k < |f|
      ensures Apart(f[k].words, x)
    {
      var i := FilterWitness(init, key, k);
      assert es[i].words == [key] + f[k].words;
      assert es[|init|] == e;
      PrefixCons(key, f[k].words, x);
      PrefixCons(key, x, f[k].words);
    }
  }

  lemma {:induction false} SnocPrefixFree(f: seq<Entry>, x: Entry)
    requires PrefixFree(f)
    requires forall k :: 0 <= k < |f| ==> Apart(f[k].words, x.words)
    ensures PrefixFree(Snoc(f, x))
  {
  }

  /** Filtering a prefix-free list keeps it prefix-free. */
  lemma {:induction false} FilterPrefixFree(es: seq<Entry>, key: int)
    requires PrefixFree(es)
    ensures PrefixFree(Filter(es, key))
  {
    if es != [] {
      var init := es[..|es| - 1];
      var e := es[|es| - 1];
      PrefixFreeInit(es);
      FilterPrefixFree(init, key);
      if |e.words| > 0 && e.words[0] == key {
        assert init + [e] == es;
        FilterLastApart(init, e, key);
        SnocPrefixFree(Filter(init, key), Entry(e.words[1..], e.code));
      }
    }
  }

  // ---------------------------------------------------------------------
  // binarySearch

  /** The longest word list among `ws`. */
  function MaxLen(ws: seq<seq<int>>): nat
  {
    if ws == [] then 0 else Max(MaxLen(ws[..|ws| - 1]), |ws[|ws| - 1]|)
  }

  /** The longest remaining word list over all groups; it bounds how deep
      the search can still descend. */
  function Height(gs: seq<Group>): nat
  {
    if gs == [] then 0 else Max(Height(gs[..|gs| - 1]), MaxLen(gs[|gs| - 1].rest))
  }

  lemma {:induction false} MaxLenAtLeast(ws: seq<seq<int>>, j: nat)
    requires j < |ws|
    ensures |ws[j]| <= MaxLen(ws)
  {
    if j < |ws| - 1 {
      MaxLenAtLeast(ws[..|ws| - 1], j);
    }
  }

  lemma {:induction false} MaxLenAtMost(ws: seq<seq<int>>, b: nat)
    requires forall j :: 0 <= j < |ws| ==> |ws[j]| <= b
    ensures MaxLen(ws) <= b
  {
    if ws != [] {
      MaxLenAtMost(ws[..|ws| - 1], b);
    }
  }

  lemma {:induction false} HeightAtLeast(gs: seq<Group>, i: nat)
    requires i < |gs|
    ensures MaxLen(gs[i].rest) <= Height(gs)
  {
    if i < |gs| - 1 {
      HeightAtLeast(gs[..|gs| - 1], i);
    }
  }

  lemma {:induction false} HeightAtMost(gs: seq<Group>, b: nat)
    requires forall i :: 0 <= i < |gs| ==> MaxLen(gs[i].rest) <= b
    ensures Height(gs) <= b
  {
    if gs != [] {
      HeightAtMost(gs[..|gs| - 1], b);
    }
  }

  /** What `binarySearch` needs of its groups: at least one, keys strictly
      ascending, rests paired with blocks, and the candidates sharing a key
      prefix-free among themselves. */
  predicate SearchOK(gs: seq<Group>)
  {
    Searchable(gs) && StrictlyAscending(gs)
  }

  /** What `binarySearch` needs to build its tree, whatever the key order:
      at least one group, and each group's rests paired with blocks and
      prefix-free when there are several. */
  predicate Searchable(gs: seq<Group>)
  {
    && |gs| >= 1
    && (forall i :: 0 <= i < |gs| ==> WellFormed(gs[i]) && (|gs[i].code| >= 2 ==> RestsFree(gs[i])))
  }

  /** No rest of the group equals, or is a prefix of, another. */
  predicate RestsFree(g: Group)
  {
    forall a, b :: 0 <= a < |g.rest| && 0 <= b < |g.rest| && a != b ==> !(g.rest[a] <= g.rest[b])
  }

  lemma {:induction false} MembersFree(g: Group)
    requires |g.rest| == |g.code|
    ensures RestsFree(g) <==> PrefixFree(Members(g))
  {
    assert forall k :: 0 <= k < |g.rest| ==> Members(g)[k].words == g.rest[k];
  }

  /** A group made of the candidates with its key has prefix-free rests,
      each one word shorter than the longest candidate. */
  lemma {:induction false} MergedGroupOK(es: seq<Entry>, b: nat, g: Group)
    requires PrefixFree(es) && AllNonEmpty(es)
    requires forall j :: 0 <= j < |es| ==> |es[j].words| <= b + 1
    requires WellFormed(g) && Members(g) == Filter(es, g.prefix)
    ensures RestsFree(g) && MaxLen(g.rest) <= b
  {
    FilterPrefixFree(es, g.prefix);
    MembersFree(g);
    FilterBound(es, g.prefix, b);
    assert forall k :: 0 <= k < |g.rest| ==> g.rest[k] == Members(g)[k].words;
    MaxLenAtMost(g.rest, b);
  }

  /** Grouping prefix-free, non-empty candidates gives what the search
      needs, and every remaining word list is one word shorter. */
  lemma {:induction false} MergedSearchOK(es: seq<Entry>, b: nat)
    requires |es| >= 1 && PrefixFree(es) && AllNonEmpty(es)
    requires forall j :: 0 <= j < |es| ==> |es[j].words| <= b + 1
    ensures SearchOK(MergedGroups(es))
    ensures Height(MergedGroups(es)) <= b
  {
    var r := MergedGroups(es);
    MergedProps(es);
    assert FindGroup(r, es[0].words[0]).Some?;
    forall i | 0 <= i < |r|
      ensures RestsFree(r[i]) && MaxLen(r[i].rest) <= b
    {
      MergedGroupOK(es, b, r[i]);
    }
    HeightAtMost(r, b);
  }

  /** The groups for the next read position: `mergeAndSortAscPrefixes` of
      one group's rests paired with their blocks. */
  function Descend(g: Group): seq<Group>
    requires WellFormed(g) && |g.code| >= 2 && RestsFree(g)
  {
    MembersFree(g);
    PrefixFreeNonEmpty(Members(g));
    MergedGroups(Members(g))
  }

  /** The groups one word further are fit to search, and no taller than the
      group's rests less one word. */
  lemma {:induction false} DescendOK(g: Group)
    requires WellFormed(g) && |g.code| >= 2 && RestsFree(g)
    ensures Searchable(Descend(g)) && Height(Descend(g)) < MaxLen(g.rest)
  {
    var es := Members(g);
    MembersFree(g);
    PrefixFreeNonEmpty(es);
    var b := MaxLen(g.rest);
    forall j | 0 <= j < |es| ensures |es[j].words| <= b
    {
      MaxLenAtLeast(g.rest, j);
    }
    MaxLenAtLeast(g.rest, 0);
    assert es[0].words == g.rest[0];
    MergedSearchOK(es, b - 1);
  }
  /** The groups one word further have strictly ascending keys. */
  lemma {:induction false} DescendAscending(g: Group)
    requires WellFormed(g) && |g.code| >= 2 && RestsFree(g)
    ensures StrictlyAscending(Descend(g))
  {
    MembersFree(g);
    PrefixFreeNonEmpty(Members(g));
    MergedProps(Members(g));
  }

  /** The groups one word further hold as many candidates as the group. */
  lemma {:induction false} DescendSize(g: Group)
    requires WellFormed(g) && |g.code| >= 2 && RestsFree(g)
    ensures TotalSize(Descend(g)) == |g.code|
  {
    MembersFree(g);
    PrefixFreeNonEmpty(Members(g));
    MergedSize(Members(g));
  }


  /** The decision tree the emitted code forms. `Guard` is the bounds check
      and read of word `readPos` into the read variable, with `noMatch` run
      when the string is too short; `EqTest` and `LessTest` compare the read
      variable with a key. */
  datatype Tree =
    | Leaf(code: string)
    | Guard(readPos: nat, body: Tree, noMatch: Option<string>)
    | EqTest(key: int, equal: Tree, other: Tree)
    | LessTest(key: int, below: Tree, above: Tree)

  /** `Math.floor((right - left) / 2) + left`: strictly inside the range, so
      both halves are non-empty and smaller. */
  function Middle(left: nat, right: nat): (m: nat)
    requires left + 2 <= right
    ensures left < m < right
  {
    (right - left) / 2 + left
  }

  /** `binarySearch(values, left, right, readPos, firstForPos)`. A single
      group is handed to `SearchGroup`; a range of groups yields an equality
      test on two of them or a less-than test on the middle key. */
  function BinarySearch(values: seq<Group>, left: nat, right: nat, readPos: nat, first: bool, noMatch: Option<string>): Tree
    requires Searchable(values) && left <= right < |values|
    decreases Height(values), right - left, 2
  {
    // A single group already has left == right == 0 under the precondition,
    // so resetting the bounds for `values.length === 1` changes nothing.
    if |values| == 1 || right <= left then SearchGroup(values, left, readPos, noMatch)
    else
      var inner :=
        if right - left == 1 then
          EqTest(values[left].prefix,
                 BinarySearch(values, left, left, readPos, false, noMatch),
                 BinarySearch(values, right, right, readPos, false, noMatch))
        else
          var middle := Middle(left, right);
          LessTest(values[middle].prefix,
                   BinarySearch(values, left, middle - 1, readPos, false, noMatch),
                   BinarySearch(values, middle, right, readPos, false, noMatch));
      if first then Guard(readPos, inner, noMatch) else inner
  }

  /** The `left >= right` branch of `binarySearch`: the group's only block,
      or a fresh search, one word further, over its merged rests. Whether
      the position was read first makes no difference here. */
  function SearchGroup(values: seq<Group>, i: nat, readPos: nat, noMatch: Option<string>): Tree
    requires Searchable(values) && i < |values|
    decreases Height(values), 0, 1
  {
    var g := values[i];
    if |g.code| == 1 then Leaf(g.code[0])
    else
      HeightAtLeast(values, i);
      SearchNext(g, readPos, noMatch)
  }

  /** `binarySearch(mergeAndSortAscPrefixes(...), 0, length - 1, readPos + 1, true)`
      over a group's rests paired with their blocks. */
  function SearchNext(g: Group, readPos: nat, noMatch: Option<string>): Tree
    requires WellFormed(g) && |g.code| >= 2 && RestsFree(g)
    decreases MaxLen(g.rest), 0, 0
  {
    DescendOK(g);
    var next := Descend(g);
    BinarySearch(next, 0, |next| - 1, readPos + 1, true, noMatch)
  }

  /** Runs the emitted code on a string whose words are `w`; `cur` is the
      read variable. `None` means no block runs. */
  function Eval(t: Tree, w: seq<int>, cur: int): Option<string>
  {
    match t
    case Leaf(code) => Some(code)
    case Guard(pos, body, noMatch) => if pos < |w| then Eval(body, w, w[pos]) else noMatch
    case EqTest(key, equal, other) => if cur == key then Eval(equal, w, cur) else Eval(other, w, cur)
    case LessTest(key, below, above) => if cur < key then Eval(below, w, cur) else Eval(above, w, cur)
  }

  /** The tests `binarySearch` lays out over keys `left..right`, with the
      tree of each single key given: the skeleton of the search, apart from
      what happens inside one group. */
  function Bisect(keys: seq<int>, subs: seq<Tree>, left: nat, right: nat, readPos: nat, first: bool, noMatch: Option<string>): Tree
    requires |keys| == |subs| && left <= right < |keys|
    decreases right - left
  {
    if right <= left then subs[left]
    else
      var inner :=
        if right - left == 1 then
          EqTest(keys[left], Bisect(keys, subs, left, left, readPos, false, noMatch),
                 Bisect(keys, subs, right, right, readPos, false, noMatch))
        else
          var middle := Middle(left, right);
          LessTest(keys[middle], Bisect(keys, subs, left, middle - 1, readPos, false, noMatch),
                   Bisect(keys, subs, middle, right, readPos, false, noMatch));
      if first then Guard(readPos, inner, noMatch) else inner
  }

  function Keys(values: seq<Group>): (r: seq<int>)
    ensures |r| == |values| && forall i :: 0 <= i < |values| ==> r[i] == values[i].prefix
  {
    seq(|values|, i requires 0 <= i < |values| => values[i].prefix)
  }

  function Subs(values: seq<Group>, readPos: nat, noMatch: Option<string>): (r: seq<Tree>)
    requires Searchable(values)
    ensures |r| == |values| && forall i :: 0 <= i < |values| ==> r[i] == SearchGroup(values, i, readPos, noMatch)
  {
    seq(|values|, i requires 0 <= i < |values| => SearchGroup(values, i, readPos, noMatch))
  }

  /** A node that reads word `readPos` first, when it is the first node for
      the position, behaves as its inner test run on that word. */
  lemma {:induction false} ReadThen(t: Tree, inner: Tree, readPos: nat, first: bool, noMatch: Option<string>, w: seq<int>, cur: int, code: string)
    requires t == (if first then Guard(readPos, inner, noMatch) else inner)
    requires readPos < |w| && (!first ==> cur == w[readPos])
    requires Eval(inner, w, w[readPos]) == Some(code)
    ensures Eval(t, w, cur) == Some(code)
  {
  }

  /** Over strictly ascending keys, the tests lead a string whose word at
      `readPos` is key `g` to the tree of key `g`. */
  lemma {:induction false} BisectFinds(keys: seq<int>, subs: seq<Tree>, left: nat, right: nat, readPos: nat, first: bool,
                                       noMatch: Option<string>, w: seq<int>, cur: int, g: nat, code: string, t: Tree)
    requires |keys| == |subs| && left <= g <= right < |keys|
    requires forall i :: 0 <= i < |keys| ==> (i < g ==> keys[i] < keys[g]) && (g < i ==> keys[g] < keys[i])
    requires t == Bisect(keys, subs, left, right, readPos, first, noMatch)
    requires readPos < |w| && keys[g] == w[readPos] && forall c :: Eval(subs[g], w, c) == Some(code)
    requires !first ==> cur == w[readPos]
    ensures Eval(t, w, cur) == Some(code)
    decreases right - left
  {
    if right <= left {
      assert t == subs[g];
    } else if right - left == 1 {
      var equal := Bisect(keys, subs, left, left, readPos, false, noMatch);
      var other := Bisect(keys, subs, right, right, readPos, false, noMatch);
      var inner := EqTest(keys[left], equal, other);
      assert t == if first then Guard(readPos, inner, noMatch) else inner;
      if g == left {
        BisectFinds(keys, subs, left, left, readPos, false, noMatch, w, w[readPos], g, code, equal);
      } else {
        assert keys[left] < keys[g];
        BisectFinds(keys, subs, right, right, readPos, false, noMatch, w, w[readPos], g, code, other);
      }
      ReadThen(t, inner, readPos, first, noMatch, w, cur, code);
    } else {
      var middle := Middle(left, right);
      var below := Bisect(keys, subs, left, middle - 1, readPos, false, noMatch);
      var above := Bisect(keys, subs, middle, right, readPos, false, noMatch);
      var inner := LessTest(keys[middle], below, above);
      assert t == if first then Guard(readPos, inner, noMatch) else inner;
      if g < middle {
        assert keys[g] < keys[middle];
        BisectFinds(keys, subs, left, middle - 1, readPos, false, noMatch, w, w[readPos], g, code, below);
      } else {
        BisectFinds(keys, subs, middle, right, readPos, false, noMatch, w, w[readPos], g, code, above);
      }
      ReadThen(t, inner, readPos, first, noMatch, w, cur, code);
    }
  }

  /** `BinarySearch` on three or more groups: a less-than test on the middle
      key, read first when this is the first node for the position. */
  lemma {:induction false} HalfShape(values: seq<Group>, left: nat, right: nat, readPos: nat, first: bool, noMatch: Option<string>)
    requires Searchable(values) && left + 2 <= right < |values|
    ensures var m := Middle(left, right);
      var inner := LessTest(values[m].prefix, BinarySearch(values, left, m - 1, readPos, false, noMatch),
                            BinarySearch(values, m, right, readPos, false, noMatch));
      BinarySearch(values, left, right, readPos, first, noMatch) == if first then Guard(readPos, inner, noMatch) else inner
  {
  }

  /** `BinarySearch` on two groups: an equality test on the left key. */
  lemma {:induction false} PairShape(values: seq<Group>, left: nat, readPos: nat, first: bool, noMatch: Option<string>)
    requires Searchable(values) && left + 1 < |values|
    ensures var inner := EqTest(values[left].prefix, BinarySearch(values, left, left, readPos, false, noMatch),
                                BinarySearch(values, left + 1, left + 1, readPos, false, noMatch));
      BinarySearch(values, left, left + 1, readPos, first, noMatch) == if first then Guard(readPos, inner, noMatch) else inner
  {
  }

  /** A single group with several candidates searches, one word further,
      groups that are fit to search, strictly ascending and lower. */
  lemma {:induction false} DescendStep(values: seq<Group>, i: nat, readPos: nat, noMatch: Option<string>, t: Tree)
    returns (next: seq<Group>)
    requires Searchable(values) && i < |values| && |values[i].code| >= 2
    requires t == SearchGroup(values, i, readPos, noMatch)
    ensures WellFormed(values[i]) && RestsFree(values[i]) && next == Descend(values[i])
    ensures SearchOK(next) && Height(next) < Height(values)
    ensures t == BinarySearch(next, 0, |next| - 1, readPos + 1, true, noMatch)
  {
    HeightAtLeast(values, i);
    DescendOK(values[i]);
    DescendAscending(values[i]);
    next := Descend(values[i]);
    assert t == SearchNext(values[i], readPos, noMatch);
  }

  /** `Bisect` on three or more keys: a less-than test on the middle key. */
  lemma {:induction false} BisectHalf(keys: seq<int>, subs: seq<Tree>, left: nat, right: nat, readPos: nat, first: bool, noMatch: Option<string>)
    requires |keys| == |subs| && left + 2 <= right < |keys|
    ensures var m := Middle(left, right);
      var inner := LessTest(keys[m], Bisect(keys, subs, left, m - 1, readPos, false, noMatch),
                            Bisect(keys, subs, m, right, readPos, false, noMatch));
      Bisect(keys, subs, left, right, readPos, first, noMatch) == if first then Guard(readPos, inner, noMatch) else inner
  {
  }

  /** `Bisect` on two keys: an equality test on the left key. */
  lemma {:induction false} BisectPair(keys: seq<int>, subs: seq<Tree>, left: nat, readPos: nat, first: bool, noMatch: Option<string>)
    requires |keys| == |subs| && left + 1 < |keys|
    ensures var inner := EqTest(keys[left], Bisect(keys, subs, left, left, readPos, false, noMatch),
                                Bisect(keys, subs, left + 1, left + 1, readPos, false, noMatch));
      Bisect(keys, subs, left, left + 1, readPos, first, noMatch) == if first then Guard(readPos, inner, noMatch) else inner
  {
  }

  /** `BinarySearch` is the skeleton over the groups' keys, with each
      group's own search as the tree of its key. */
  lemma {:induction false} BinarySearchIsBisect(values: seq<Group>, left: nat, right: nat, readPos: nat, first: bool,
                                                noMatch: Option<string>, keys: seq<int>, subs: seq<Tree>, t: Tree)
    requires Searchable(values) && left <= right < |values|
    requires keys == Keys(values) && subs == Subs(values, readPos, noMatch)
    requires t == BinarySearch(values, left, right, readPos, first, noMatch)
    ensures t == Bisect(keys, subs, left, right, readPos, first, noMatch)
    decreases right - left, 1
  {
    if |values| == 1 || right <= left {
      assert t == subs[left];
    } else if right - left == 1 {
      PairIsBisect(values, left, readPos, first, noMatch, keys, subs, t);
    } else {
      HalfIsBisect(values, left, right, readPos, first, noMatch, keys, subs, t);
    }
  }

  /** The step of `BinarySearchIsBisect` on two groups. */
  lemma {:induction false} PairIsBisect(values: seq<Group>, left: nat, readPos: nat, first: bool,
                                        noMatch: Option<string>, keys: seq<int>, subs: seq<Tree>, t: Tree)
    requires Searchable(values) && left + 1 < |values|
    requires keys == Keys(values)
    requires subs == Subs(values, readPos, noMatch)
    requires t == BinarySearch(values, left, left + 1, readPos, first, noMatch)
    ensures t == Bisect(keys, subs, left, left + 1, readPos, first, noMatch)
    decreases 1, 0
  {
    var equal := BinarySearch(values, left, left, readPos, false, noMatch);
    var other := BinarySearch(values, left + 1, left + 1, readPos, false, noMatch);
    BinarySearchIsBisect(values, left, left, readPos, false, noMatch, keys, subs, equal);
    BinarySearchIsBisect(values, left + 1, left + 1, readPos, false, noMatch, keys, subs, other);
    PairShape(values, left, readPos, first, noMatch);
    BisectPair(keys, subs, left, readPos, first, noMatch);
  }

  /** The step of `BinarySearchIsBisect` on three or more groups. */
  lemma {:induction false} HalfIsBisect(values: seq<Group>, left: nat, right: nat, readPos: nat, first: bool,
                                        noMatch: Option<string>, keys: seq<int>, subs: seq<Tree>, t: Tree)
    requires Searchable(values) && left + 2 <= right < |values|
    requires keys == Keys(values)
    requires subs == Subs(values, readPos, noMatch)
    requires t == BinarySearch(values, left, right, readPos, first, noMatch)
    ensures t == Bisect(keys, subs, left, right, readPos, first, noMatch)
    decreases right - left, 0
  {
    var middle := Middle(left, right);
    var below := BinarySearch(values, left, middle - 1, readPos, false, noMatch);
    var above := BinarySearch(values, middle, right, readPos, false, noMatch);
    BinarySearchIsBisect(values, left, middle - 1, readPos, false, noMatch, keys, subs, below);
    BinarySearchIsBisect(values, middle, right, readPos, false, noMatch, keys, subs, above);
    HalfShape(values, left, right, readPos, first, noMatch);
    BisectHalf(keys, subs, left, right, readPos, first, noMatch);
  }

  /** Grouping prefix-free, non-empty candidates gives what the search
      needs. */
  lemma {:induction false} MergedOK(es: seq<Entry>)
    requires |es| >= 1 && PrefixFree(es) && AllNonEmpty(es)
    ensures SearchOK(MergedGroups(es))
  {
    var ws := seq(|es|, j requires 0 <= j < |es| => es[j].words);
    var b := MaxLen(ws);
    forall j | 0 <= j < |es| ensures |es[j].words| <= b + 1
    {
      MaxLenAtLeast(ws, j);
    }
    MergedSearchOK(es, b);
  }

  /** The whole search for prefix-free, non-empty candidates. */
  function JumpTree(es: seq<Entry>, noMatch: Option<string>): Tree
    requires |es| >= 1 && PrefixFree(es) && AllNonEmpty(es)
  {
    MergedOK(es);
    var values := MergedGroups(es);
    BinarySearch(values, 0, |values| - 1, 0, true, noMatch)
  }

  lemma {:induction false} JumpTreeIs(es: seq<Entry>, noMatch: Option<string>)
    requires |es| >= 1 && PrefixFree(es) && AllNonEmpty(es)
    ensures SearchOK(MergedGroups(es))
    ensures JumpTree(es, noMatch) == BinarySearch(MergedGroups(es), 0, |MergedGroups(es)| - 1, 0, true, noMatch)
  {
    MergedOK(es);
  }

  /** A candidate's first word names a group that holds the candidate's
      rest and block, at the same position `k`. */
  lemma {:induction false} MergedHas(es: seq<Entry>, i: nat) returns (g: nat, k: nat)
    requires AllNonEmpty(es) && i < |es|
    ensures g < |MergedGroups(es)| && MergedGroups(es)[g].prefix == es[i].words[0]
    ensures WellFormed(MergedGroups(es)[g]) && k < |MergedGroups(es)[g].rest|
    ensures MergedGroups(es)[g].rest[k] == es[i].words[1..] && MergedGroups(es)[g].code[k] == es[i].code
  {
    var values := MergedGroups(es);
    MergedProps(es);
    g := FindGroup(values, es[i].words[0]).value;
    k := FilterHas(es, es[i].words[0], i);
    assert Members(values[g])[k] == Entry(es[i].words[1..], es[i].code);
  }

  /** A candidate of a shared group, when its string is long enough to
      reach the next word, is found in the next level's groups. */
  lemma {:induction false} DescendHas(gr: Group, w: seq<int>, readPos: nat, code: string, k: nat) returns (g: nat, k': nat)
    requires WellFormed(gr) && |gr.code| >= 2 && RestsFree(gr)
    requires readPos < |w| && k < |gr.rest| && gr.rest[k] == w[readPos + 1..] && gr.code[k] == code
    ensures readPos + 1 < |w|
    ensures var next := Descend(gr);
      && g < |next| && next[g].prefix == w[readPos + 1]
      && k' < |next[g].rest| && k' < |next[g].code| && next[g].rest[k'] == w[readPos + 2..] && next[g].code[k'] == code
  {
    var es := Members(gr);
    MembersFree(gr);
    PrefixFreeNonEmpty(es);
    assert es[k] == Entry(w[readPos + 1..], code);
    g, k' := MergedHas(es, k);
    assert es[k].words[1..] == w[readPos + 2..];
  }

  /** Among strictly ascending groups, the keys before group `g` are
      smaller than its key and those after it larger. */
  lemma {:induction false} KeysAround(values: seq<Group>, keys: seq<int>, g: nat)
    requires StrictlyAscending(values) && keys == Keys(values) && g < |values|
    ensures forall i :: 0 <= i < |keys| ==> (i < g ==> keys[i] < keys[g]) && (g < i ==> keys[g] < keys[i])
  {
  }

  /** A search over strictly ascending groups leads a string whose word at
      `readPos` is the key of group `g` into that group's own search. */
  lemma {:induction false} SearchFinds(values: seq<Group>, readPos: nat, noMatch: Option<string>, w: seq<int>,
                                       cur: int, g: nat, code: string, sub: Tree, t: Tree)
    requires SearchOK(values) && g < |values| && readPos < |w| && values[g].prefix == w[readPos]
    requires t == BinarySearch(values, 0, |values| - 1, readPos, true, noMatch)
    requires sub == SearchGroup(values, g, readPos, noMatch)
    requires forall c :: Eval(sub, w, c) == Some(code)
    ensures Eval(t, w, cur) == Some(code)
  {
    var keys, subs := Keys(values), Subs(values, readPos, noMatch);
    assert subs[g] == sub;
    KeysAround(values, keys, g);
    BinarySearchIsBisect(values, 0, |values| - 1, readPos, true, noMatch, keys, subs, t);
    BisectFinds(keys, subs, 0, |values| - 1, readPos, true, noMatch, w, cur, g, code, t);
  }

  /** A search over one position's groups reaches the block of every
      candidate, on the candidate's own string, whatever the read variable
      held: group `g` holds the candidate's word at `readPos`, and its `k`th
      member the candidate's remaining words and block. */
  lemma {:induction false} LevelFinds(values: seq<Group>, readPos: nat, noMatch: Option<string>, w: seq<int>,
                                      cur: int, g: nat, k: nat, code: string, t: Tree)
    requires SearchOK(values) && g < |values| && readPos < |w| && values[g].prefix == w[readPos]
    requires k < |values[g].rest| && values[g].rest[k] == w[readPos + 1..] && values[g].code[k] == code
    requires t == BinarySearch(values, 0, |values| - 1, readPos, true, noMatch)
    ensures Eval(t, w, cur) == Some(code)
    decreases Height(values), 1
  {
    var sub := SearchGroup(values, g, readPos, noMatch);
    forall c ensures Eval(sub, w, c) == Some(code) {
      GroupFinds(values, g, readPos, noMatch, w, code, c, k, sub);
    }
    SearchFinds(values, readPos, noMatch, w, cur, g, code, sub, t);
  }

  /** A single group's search reaches the block of every candidate in it,
      on the candidate's own string, whatever the read variable held. */
  lemma {:induction false} GroupFinds(values: seq<Group>, i: nat, readPos: nat, noMatch: Option<string>, w: seq<int>,
                                      code: string, cur: int, k: nat, t: Tree)
    requires Searchable(values) && i < |values|
    requires t == SearchGroup(values, i, readPos, noMatch)
    requires readPos < |w| && k < |values[i].rest| && values[i].rest[k] == w[readPos + 1..] && values[i].code[k] == code
    ensures Eval(t, w, cur) == Some(code)
    decreases Height(values), 0
  {
    if |values[i].code| >= 2 {
      var next := DescendStep(values, i, readPos, noMatch, t);
      var g', k' := DescendHas(values[i], w, readPos, code, k);
      LevelFinds(next, readPos + 1, noMatch, w, cur, g', k', code, t);
    }
  }

  /** Every candidate's own string runs its own block, whatever the read
      variable held before. */
  lemma {:induction false} JumpFinds(es: seq<Entry>, noMatch: Option<string>, i: nat, cur: int, t: Tree)
    requires |es| >= 1 && PrefixFree(es) && AllNonEmpty(es) && i < |es|
    requires t == JumpTree(es, noMatch)
    ensures Eval(t, es[i].words, cur) == Some(es[i].code)
  {
    JumpTreeIs(es, noMatch);
    var g, k := MergedHas(es, i);
    LevelFinds(MergedGroups(es), 0, noMatch, es[i].words, cur, g, k, es[i].code, t);
  }

  /** With two or more candidates the first node reached is a bounds check
      at `readPos` or deeper, which falls to `noMatch`. */
  lemma {:induction false} SearchStartsWithGuard(values: seq<Group>, readPos: nat, noMatch: Option<string>, t: Tree)
    requires Searchable(values) && TotalSize(values) >= 2
    requires t == BinarySearch(values, 0, |values| - 1, readPos, true, noMatch)
    ensures t.Guard? && t.readPos >= readPos && t.noMatch == noMatch
    decreases Height(values)
  {
    if |values| == 1 {
      assert TotalSize(values) == |values[0].code|;
      var next := DescendStep(values, 0, readPos, noMatch, t);
      DescendSize(values[0]);
      SearchStartsWithGuard(next, readPos + 1, noMatch, t);
    }
  }

  /** With two or more candidates an empty string runs `noMatch`. */
  lemma {:induction false} EmptyRunsNoMatch(es: seq<Entry>, noMatch: Option<string>, cur: int)
    requires |es| >= 2 && PrefixFree(es) && AllNonEmpty(es)
    ensures Eval(JumpTree(es, noMatch), [], cur) == noMatch
  {
    JumpTreeIs(es, noMatch);
    MergedSize(es);
    SearchStartsWithGuard(MergedGroups(es), 0, noMatch, JumpTree(es, noMatch));
  }

  /** A single candidate compiles to its block alone, with no read. */
  lemma {:induction false} SingleCandidate(e: Entry, noMatch: Option<string>)
    requires |e.words| > 0
    ensures JumpTree([e], noMatch) == Leaf(e.code)
  {
    var g := Group(e.words[0], [e.words[1..]], [e.code]);
    assert [e][..0] == [];
    assert Collect([e]) == [g];
    assert SortGroups([g]) == Insert(SortGroups([]), g);
    assert MergedGroups([e]) == [g];
    assert BinarySearch([g], 0, 0, 0, true, noMatch) == SearchGroup([g], 0, 0, noMatch);
  }

  /** What `binarySearch` emits for the two values "abcdef" and "abcdefg"
      (string.ts:238-276), which share their first word: one group, whose
      descent is guarded by `1 < ceil(strLen / 6)`, and inside it an equality
      test on the prefix of the group the sort puts first, `NaN` for the value
      that has no second word. `key`, `first` and `second` stand for whichever
      order the sort picks. */
  function SharedWordTree(key: int, first: string, second: string, noMatch: Option<string>): Tree
  {
    Guard(1, EqTest(key, Leaf(first), Leaf(second)), noMatch)
  }

  /** The two values share their one-word prefix, and "abcdef" never reaches
      either block: its single word fails the guard, so the jump runs the
      no-match code (or nothing), whatever the sort order. */
  lemma SharedWordMissesShorter(key: int, first: string, second: string, noMatch: Option<string>, cur: int)
    ensures |Encode(CharCodes("abcdef"))| == 1 && |Encode(CharCodes("abcdefg"))| == 2
    ensures Encode(CharCodes("abcdefg"))[..1] == Encode(CharCodes("abcdef"))
    ensures Eval(SharedWordTree(key, first, second, noMatch), Encode(CharCodes("abcdef")), cur) == noMatch
  {
  }
}
