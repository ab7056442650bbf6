/** The argument handling of `stringJumpFast` in templates/src/string.ts:
    the names of the string's pointer and length, the (value, block) pairs
    read two at a time, the optional no-match block, and the candidates
    handed to the search of module StringJump. */
module StringJumpArgs {
  import opened Wrappers
  import opened Float
  import opened Util
  import opened StringJump

  /** A template argument as `getString` and `getBlock` see it: a string, a
      block object with its code, or anything else (a number, `null`, an
      object that is not a block). */
  datatype Arg = StrArg(s: string) | BlockArg(value: string) | OtherArg

  /** `getString(args, state, i)`: the string at position i, if there is one. */
  function ArgString(args: seq<Arg>, i: nat): (r: Option<string>)
    ensures r.Some? <==> i < |args| && args[i].StrArg?
  {
    if i < |args| && args[i].StrArg? then Some(args[i].s) else None
  }

  /** `getBlock(args, state, i)`: the code of the block at position i, if
      there is one. */
  function ArgBlock(args: seq<Arg>, i: nat): (r: Option<string>)
    ensures r.Some? <==> i < |args| && args[i].BlockArg?
  {
    if i < |args| && args[i].BlockArg? then Some(args[i].value) else None
  }

  /** One entry of `checkPairs`. */
  datatype Pair = Pair(value: string, block: string)

  /** What `stringJumpFast` produces: the tree of tests it emits, under the
      names of the string's pointer and length, or the message it throws.
      `NotPrefixFree` marks candidate lists outside this model (see
      `PrefixFree`). */
  datatype Outcome = Jump(strPtr: string, strLen: string, tree: Tree) | Rejected(message: string) | NotPrefixFree

  /** How many times `for(i = start; (i + 1) < n; i += 2)` runs its body. */
  function PairCount(n: nat, start: nat): nat
  {
    if start + 1 < n then (n - start) / 2 else 0
  }

  /** The two arguments at j and j + 1 form a valid pair. */
  predicate PairOK(args: seq<Arg>, j: nat)
    requires j + 1 < |args|
  {
    args[j].StrArg? && args[j].s != "" && args[j + 1].BlockArg?
  }

  /** The message one invalid pair at j draws, in the order the loop body
      checks. */
  function PairError(args: seq<Arg>, j: nat): string
    requires j + 1 < |args|
  {
    if !args[j].StrArg? then "Expected a string value to check!"
    else if !args[j + 1].BlockArg? then "Expected a block to run!"
    else "Empty strings are not valid values!"
  }

  /** The pair loop of `stringJumpFast` from position i onwards. */
  function ParsePairs(args: seq<Arg>, i: nat): Result<seq<Pair>, string>
    decreases |args| - i
  {
    if i + 1 >= |args| then Success([])
    else if ArgString(args, i).None? then Failure("Expected a string value to check!")
    else if ArgBlock(args, i + 1).None? then Failure("Expected a block to run!")
    else if args[i].s == "" then Failure("Empty strings are not valid values!")
    else
      match ParsePairs(args, i + 2)
      case Success(rest) => Success([Pair(args[i].s, args[i + 1].value)] + rest)
      case Failure(e) => Failure(e)
  }

  /** The pairs already collected followed by the outcome of the rest of
      the loop. */
  function Prepend(done: seq<Pair>, r: Result<seq<Pair>, string>): Result<seq<Pair>, string>
  {
    match r
    case Success(rest) => Success(done + rest)
    case Failure(e) => Failure(e)
  }

  lemma PrependNone(r: Result<seq<Pair>, string>)
    ensures Prepend([], r) == r
  {
    if r.Success? {
      assert [] + r.value == r.value;
    }
  }

  /** One more turn of the loop moves one pair from what is left to what
      is collected. */
  lemma PrependStep(done: seq<Pair>, args: seq<Arg>, i: nat)
    requires i + 1 < |args| && args[i].StrArg? && args[i + 1].BlockArg? && args[i].s != ""
    ensures Prepend(done, ParsePairs(args, i)) == Prepend(done + [Pair(args[i].s, args[i + 1].value)], ParsePairs(args, i + 2))
  {
    var p := Pair(args[i].s, args[i + 1].value);
    if ParsePairs(args, i + 2).Success? {
      var rest := ParsePairs(args, i + 2).value;
      assert done + ([p] + rest) == (done + [p]) + rest;
    }
  }

  /** The loop succeeds exactly when every pair it visits is valid, and then
      yields one pair per visit, each the value at the visited position and
      the code of the block after it. */
  lemma {:induction false} ParsePairsSuccess(args: seq<Arg>, i: nat)
    ensures ParsePairs(args, i).Success? <==>
            forall k :: 0 <= k < PairCount(|args|, i) ==> PairOK(args, i + 2 * k)
    ensures ParsePairs(args, i).Success? ==>
            && |ParsePairs(args, i).value| == PairCount(|args|, i)
            && forall k :: 0 <= k < PairCount(|args|, i) ==>
                 ParsePairs(args, i).value[k] == Pair(args[i + 2 * k].s, args[i + 2 * k + 1].value)
    decreases |args| - i
  {
    if i + 1 < |args| {
      ParsePairsSuccess(args, i + 2);
      assert PairCount(|args|, i) == PairCount(|args|, i + 2) + 1;
      if ParsePairs(args, i).Success? {
        var rest := ParsePairs(args, i + 2).value;
        forall k | 0 <= k < PairCount(|args|, i)
          ensures PairOK(args, i + 2 * k)
          ensures ParsePairs(args, i).value[k] == Pair(args[i + 2 * k].s, args[i + 2 * k + 1].value)
        {
          if k > 0 {
            assert i + 2 * k == (i + 2) + 2 * (k - 1);
          }
        }
      } else if PairOK(args, i) {
        var k :| 0 <= k < PairCount(|args|, i + 2) && !PairOK(args, i + 2 + 2 * k);
        assert i + 2 * (k + 1) == i + 2 + 2 * k;
        assert !PairOK(args, i + 2 * (k + 1));
      } else {
        assert !PairOK(args, i + 2 * 0);
      }
    }
  }

  /** When the loop fails, it fails at the first invalid pair, with the
      message for what is wrong there. */
  lemma {:induction false} ParsePairsFailure(args: seq<Arg>, i: nat) returns (k: nat)
    requires ParsePairs(args, i).Failure?
    ensures k < PairCount(|args|, i) && !PairOK(args, i + 2 * k)
    ensures forall k' :: 0 <= k' < k ==> PairOK(args, i + 2 * k')
    ensures ParsePairs(args, i).error == PairError(args, i + 2 * k)
    decreases |args| - i
  {
    if PairOK(args, i) {
      var k0 := ParsePairsFailure(args, i + 2);
      k := k0 + 1;
      assert i + 2 * k == i + 2 + 2 * k0;
      forall k' | 0 <= k' < k ensures PairOK(args, i + 2 * k')
      {
        if k' > 0 {
          assert i + 2 * k' == (i + 2) + 2 * (k' - 1);
        }
      }
    } else {
      k := 0;
    }
  }

  /** Every value the loop accepts is a non-empty string. */
  lemma {:induction false} ParsedNonEmpty(args: seq<Arg>, i: nat)
    requires ParsePairs(args, i).Success?
    ensures forall k :: 0 <= k < |ParsePairs(args, i).value| ==> ParsePairs(args, i).value[k].value != ""
  {
    ParsePairsSuccess(args, i);
  }

  /** `checkPairs.map(pair => ({floatValues: fromManyBytes(codes, 0), code: pair.block}))`. */
  function Candidates(pairs: seq<Pair>): (es: seq<Entry>)
    ensures |es| == |pairs|
  {
    seq(|pairs|, k requires 0 <= k < |pairs| => Entry(Encode(CharCodes(pairs[k].value)), pairs[k].block))
  }

  /** A non-empty value packs into at least one word. */
  lemma CandidatesNonEmpty(pairs: seq<Pair>)
    requires forall k :: 0 <= k < |pairs| ==> pairs[k].value != ""
    ensures AllNonEmpty(Candidates(pairs))
  {
    forall k | 0 <= k < |pairs| ensures |Candidates(pairs)[k].words| > 0
    {
      CeilDivBounds(|pairs[k].value|, BytesPerFloat);
    }
  }

  /** The arguments once read: both names, the pairs and the no-match
      block. */
  datatype Call = Call(strPtr: string, strLen: string, pairs: seq<Pair>, noMatch: Option<string>)

  /** Everything `stringJumpFast` checks before it builds the search, with
      the message of the first check that fails. */
  function ParseArgs(args: seq<Arg>): (r: Result<Call, string>)
    ensures r.Success? ==> |r.value.pairs| >= 1
    ensures r.Success? ==> forall k :: 0 <= k < |r.value.pairs| ==> r.value.pairs[k].value != ""
  {
    if ArgString(args, 0).None? then Failure("A string pointer to check if required!")
    else if ArgString(args, 1).None? then Failure("A string length to check if required!")
    else
      match ParsePairs(args, 2)
      case Failure(e) => Failure(e)
      case Success(pairs) =>
        var n := 2 + 2 * |pairs|;
        if pairs == [] then Failure("At least one test value must be given!")
        else if n < |args| && ArgBlock(args, n).None? then Failure("Expected a no match block to run!")
        else
          ParsedNonEmpty(args, 2);
          Success(Call(args[0].s, args[1].s, pairs, if n < |args| then ArgBlock(args, n) else None))
  }

  /** `stringJumpFast!(strPtr, strLen, ...(value, block), noMatch?)`. */
  function StringJumpOf(args: seq<Arg>): Outcome
  {
    match ParseArgs(args)
    case Failure(e) => Rejected(e)
    case Success(call) =>
      var es := Candidates(call.pairs);
      if !PrefixFree(es) then NotPrefixFree
      else
        CandidatesNonEmpty(call.pairs);
        Jump(call.strPtr, call.strLen, JumpTree(es, call.noMatch))
  }

  /** The argument reading of `stringJumpFast`: the two names, the pairs
      two arguments at a time, and a trailing argument as the no-match
      block. */
  method ReadArgs(args: seq<Arg>) returns (r: Result<Call, string>)
    ensures r == ParseArgs(args)
  {
    var strPtr := ArgString(args, 0);
    if strPtr.None? {
      return Failure("A string pointer to check if required!");
    }
    var strLen := ArgString(args, 1);
    if strLen.None? {
      return Failure("A string length to check if required!");
    }

    var checkPairs: seq<Pair> := [];
    var handledArgs := 0;
    var i := 2;
    PrependNone(ParsePairs(args, 2));
    while i + 1 < |args|
      invariant i == 2 + handledArgs && handledArgs == 2 * |checkPairs|
      invariant ParsePairs(args, 2) == Prepend(checkPairs, ParsePairs(args, i))
      decreases |args| - i
    {
      var value := ArgString(args, i);
      if value.None? {
        return Failure("Expected a string value to check!");
      }
      var block := ArgBlock(args, i + 1);
      if block.None? {
        return Failure("Expected a block to run!");
      }
      if value.value == "" {
        return Failure("Empty strings are not valid values!");
      }
      PrependStep(checkPairs, args, i);
      checkPairs := checkPairs + [Pair(value.value, block.value)];
      handledArgs := handledArgs + 2;
      i := i + 2;
    }
    assert checkPairs + [] == checkPairs;

    if handledArgs == 0 {
      return Failure("At least one test value must be given!");
    }

    var noMatch: Option<string> := None;
    if 2 + handledArgs < |args| {
      noMatch := ArgBlock(args, 2 + handledArgs);
      if noMatch.None? {
        return Failure("Expected a no match block to run!");
      }
    }
    r := Success(Call(strPtr.value, strLen.value, checkPairs, noMatch));
  }

  /** `stringJumpFast`: reads the arguments, packs each value into words
      and builds the search over the merged groups. */
  method StringJumpFast(args: seq<Arg>) returns (r: Outcome)
    ensures r == StringJumpOf(args)
  {
    var call := ReadArgs(args);
    if call.Failure? {
      return Rejected(call.error);
    }
    var values := Candidates(call.value.pairs);
    // Candidates where one value's words start another's are outside the
    // model: the source then keys a group by a missing word.
    if !PrefixFree(values) {
      return NotPrefixFree;
    }
    CandidatesNonEmpty(call.value.pairs);
    var mergedValues := MergeAndSortAscPrefixes(values);
    JumpTreeIs(values, call.value.noMatch);
    r := Jump(call.value.strPtr, call.value.strLen,
              BinarySearch(mergedValues, 0, |mergedValues| - 1, 0, true, call.value.noMatch));
  }

  // ---------------------------------------------------------------------
  // Properties of the argument handling

  /** The call is rejected exactly when reading its arguments fails, with
      the same message. */
  lemma RejectedWhenParseFails(args: seq<Arg>)
    ensures StringJumpOf(args).Rejected? <==> ParseArgs(args).Failure?
    ensures StringJumpOf(args).Rejected? ==> StringJumpOf(args).message == ParseArgs(args).error
  {
  }

  /** The pointer and length names are required, in that order, and are
      the first two arguments. */
  lemma NamesRequired(args: seq<Arg>)
    ensures ParseArgs(args) == Failure("A string pointer to check if required!") <==> ArgString(args, 0).None?
    ensures ArgString(args, 0).Some? ==>
            (ParseArgs(args) == Failure("A string length to check if required!") <==> ArgString(args, 1).None?)
    ensures ParseArgs(args).Success? ==>
            ParseArgs(args).value.strPtr == args[0].s && ParseArgs(args).value.strLen == args[1].s
  {
    if ArgString(args, 0).Some? && ArgString(args, 1).Some? && ParsePairs(args, 2).Failure? {
      var k := ParsePairsFailure(args, 2);
    }
  }

  /** With both names present, the call is rejected for having no pair
      exactly when there are fewer than four arguments. */
  lemma AtLeastOnePair(args: seq<Arg>)
    requires ArgString(args, 0).Some? && ArgString(args, 1).Some?
    ensures ParseArgs(args) == Failure("At least one test value must be given!") <==> |args| <= 3
  {
    if ParsePairs(args, 2).Failure? {
      var k := ParsePairsFailure(args, 2);
    } else {
      ParsePairsSuccess(args, 2);
    }
  }

  /** A failing pair decides the message: the first invalid pair's. */
  lemma FirstBadPair(args: seq<Arg>) returns (k: nat)
    requires ArgString(args, 0).Some? && ArgString(args, 1).Some? && ParsePairs(args, 2).Failure?
    ensures 2 + 2 * k + 1 < |args| && !PairOK(args, 2 + 2 * k)
    ensures forall k' :: 0 <= k' < k ==> PairOK(args, 2 + 2 * k')
    ensures ParseArgs(args) == Failure(PairError(args, 2 + 2 * k))
  {
    k := ParsePairsFailure(args, 2);
  }

  /** Once the pairs are valid, an argument is left over for the no-match
      case exactly when the count is odd, and it must be a block. */
  lemma NoMatchSlot(args: seq<Arg>)
    requires ArgString(args, 0).Some? && ArgString(args, 1).Some?
    requires ParsePairs(args, 2).Success? && |args| >= 4
    ensures 2 + 2 * |ParsePairs(args, 2).value| < |args| <==> |args| % 2 == 1
    ensures ParseArgs(args) == Failure("Expected a no match block to run!") <==>
            |args| % 2 == 1 && !args[|args| - 1].BlockArg?
  {
    ParsePairsSuccess(args, 2);
    if |args| % 2 == 1 {
      assert 2 + 2 * |ParsePairs(args, 2).value| == |args| - 1;
    }
  }

  /** The no-match block the tree falls back to. */
  function NoMatchOf(args: seq<Arg>): Option<string>
  {
    if |args| % 2 == 1 && |args| >= 5 then ArgBlock(args, |args| - 1) else None
  }

  /** A successful read holds one pair per two arguments after the names,
      each a value and the block after it, and the trailing block if the
      count is odd. */
  lemma {:induction false} ParseArgsSuccess(args: seq<Arg>)
    requires ParseArgs(args).Success?
    ensures var call := ParseArgs(args).value;
            && |call.pairs| == PairCount(|args|, 2) >= 1
            && call.noMatch == NoMatchOf(args)
            && forall k :: 0 <= k < |call.pairs| ==>
                 && 3 + 2 * k < |args| && args[2 + 2 * k].StrArg? && args[3 + 2 * k].BlockArg?
                 && call.pairs[k] == Pair(args[2 + 2 * k].s, args[3 + 2 * k].value)
  {
    ParsePairsSuccess(args, 2);
    if |args| % 2 == 1 {
      assert 2 + 2 * |ParsePairs(args, 2).value| == |args| - 1;
    }
  }

  /** The tree produced is the search over the packed values with the
      trailing block, if any, as its no-match case. */
  lemma {:induction false} JumpIs(args: seq<Arg>) returns (es: seq<Entry>)
    requires StringJumpOf(args).Jump?
    ensures |es| == PairCount(|args|, 2) >= 1 && PrefixFree(es) && AllNonEmpty(es)
    ensures forall k :: 0 <= k < |es| ==>
              && 3 + 2 * k < |args| && args[2 + 2 * k].StrArg? && args[3 + 2 * k].BlockArg?
              && es[k] == Entry(Encode(CharCodes(args[2 + 2 * k].s)), args[3 + 2 * k].value)
    ensures StringJumpOf(args).tree == JumpTree(es, NoMatchOf(args))
  {
    ParseArgsSuccess(args);
    var call := ParseArgs(args).value;
    CandidatesNonEmpty(call.pairs);
    es := Candidates(call.pairs);
  }
  /** The guarantee `stringJumpFast` documents: a string whose words are
      exactly those of one of the given values runs that value's block. */
  lemma StringJumpFinds(args: seq<Arg>, k: nat, cur: int)
    requires StringJumpOf(args).Jump? && k < PairCount(|args|, 2)
    ensures args[2 + 2 * k].StrArg? && args[3 + 2 * k].BlockArg?
    ensures Eval(StringJumpOf(args).tree, Encode(CharCodes(args[2 + 2 * k].s)), cur) == Some(args[3 + 2 * k].value)
  {
    var es := JumpIs(args);
    JumpFinds(es, NoMatchOf(args), k, cur, StringJumpOf(args).tree);
  }

  /** With two or more values an empty string runs the no-match block, or
      nothing when none was given. */
  lemma StringJumpEmpty(args: seq<Arg>, cur: int)
    requires StringJumpOf(args).Jump? && |args| >= 6
    ensures Eval(StringJumpOf(args).tree, [], cur) == NoMatchOf(args)
  {
    var es := JumpIs(args);
    EmptyRunsNoMatch(es, NoMatchOf(args), cur);
  }

  /** With one value the tree is that value's block alone, whatever the
      string holds. */
  lemma StringJumpSingle(args: seq<Arg>)
    requires StringJumpOf(args).Jump? && |args| <= 5
    ensures StringJumpOf(args).tree == Leaf(args[3].value)
  {
    var es := JumpIs(args);
    assert es == [es[0]];
    SingleCandidate(es[0], NoMatchOf(args));
  }
}
