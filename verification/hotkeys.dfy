/**
 * The hotkey dispatcher: an ordered table of (key, action) bindings; a key
 * press runs the action of the first binding for that key, or nothing. It
 * keeps no state between key presses. Actions are opaque values of type `A`.
 */
module HotKeys {
  import opened Wrappers

  datatype Binding<A> = Binding(targetKey: string, action: A)

  /** Binding `i` is the first one for `key`. */
  predicate IsFirstMatch<A>(bindings: seq<Binding<A>>, key: string, i: int) {
    && 0 <= i < |bindings|
    && bindings[i].targetKey == key
    && forall j :: 0 <= j < i ==> bindings[j].targetKey != key
  }

  /** No binding is for `key`. */
  predicate NoMatch<A>(bindings: seq<Binding<A>>, key: string) {
    forall j :: 0 <= j < |bindings| ==> bindings[j].targetKey != key
  }

  /** The position of the first binding for `key`, scanning from the front. */
  function FirstMatch<A>(bindings: seq<Binding<A>>, key: string): (r: Option<nat>)
    ensures r.Some? ==> IsFirstMatch(bindings, key, r.value)
    ensures r.None? ==> NoMatch(bindings, key)
    decreases |bindings|
  {
    if |bindings| == 0 then None
    else if bindings[0].targetKey == key then Some(0)
    else
      match FirstMatch(bindings[1..], key)
      case None => None
      case Some(i) => Some(i + 1)
  }

  /** The action a key press runs: that of the first binding for the key, if any. */
  function Dispatch<A>(bindings: seq<Binding<A>>, key: string): (r: Option<A>)
    ensures r.None? <==> NoMatch(bindings, key)
    ensures r.Some? ==> exists i :: IsFirstMatch(bindings, key, i) && bindings[i].action == r.value
  {
    match FirstMatch(bindings, key)
    case None => None
    case Some(i) => Some(bindings[i].action)
  }

  /**
   * The key-down handler: scans the table front to back and returns the
   * actions it ran, which is at most one.
   */
  method HandleKey<A>(bindings: seq<Binding<A>>, key: string) returns (ran: seq<A>)
    ensures |ran| <= 1
    ensures |ran| == 0 <==> NoMatch(bindings, key)
    ensures |ran| == 1 ==> exists i :: IsFirstMatch(bindings, key, i) && ran[0] == bindings[i].action
    ensures |ran| == 1 ==> Dispatch(bindings, key) == Some(ran[0])
  {
    var i := 0;
    while i < |bindings| && bindings[i].targetKey != key
      invariant 0 <= i <= |bindings|
      invariant forall j :: 0 <= j < i ==> bindings[j].targetKey != key
      decreases |bindings| - i
    {
      i := i + 1;
    }
    if i < |bindings| {
      assert IsFirstMatch(bindings, key, i);
      ran := [bindings[i].action];
    } else {
      ran := [];
    }
  }

  /** The first match is unique: at most one binding is the first one for a key. */
  lemma FirstMatchUnique<A>(bindings: seq<Binding<A>>, key: string, i: int, k: int)
    requires IsFirstMatch(bindings, key, i) && IsFirstMatch(bindings, key, k)
    ensures i == k
  {
  }

  /** Bindings added after the first match for a key do not change what the key runs. */
  lemma {:induction false} DispatchAppendAfterMatch<A>(bindings: seq<Binding<A>>, extra: seq<Binding<A>>, key: string)
    requires Dispatch(bindings, key).Some?
    ensures Dispatch(bindings + extra, key) == Dispatch(bindings, key)
    decreases |bindings|
  {
    if bindings[0].targetKey != key {
      assert (bindings + extra)[1..] == bindings[1..] + extra;
      DispatchAppendAfterMatch(bindings[1..], extra, key);
    }
  }

  /** When no binding is for a key, appended bindings decide alone. */
  lemma {:induction false} DispatchAppendNoMatch<A>(bindings: seq<Binding<A>>, extra: seq<Binding<A>>, key: string)
    requires Dispatch(bindings, key).None?
    ensures Dispatch(bindings + extra, key) == Dispatch(extra, key)
    decreases |bindings|
  {
    if |bindings| == 0 {
      assert bindings + extra == extra;
    } else {
      assert (bindings + extra)[1..] == bindings[1..] + extra;
      DispatchAppendNoMatch(bindings[1..], extra, key);
    }
  }

  /** With pairwise distinct keys, a key runs the action of the one binding for it, whatever the order of the table. */
  lemma DispatchDistinctKeys<A>(bindings: seq<Binding<A>>, key: string, i: int)
    requires forall j, k :: 0 <= j < k < |bindings| ==> bindings[j].targetKey != bindings[k].targetKey
    requires 0 <= i < |bindings| && bindings[i].targetKey == key
    ensures Dispatch(bindings, key) == Some(bindings[i].action)
  {
  }

  /** The actions run for one dispatch result: none, or the one found. */
  function RanFor<A>(found: Option<A>): seq<A> {
    match found
    case None => []
    case Some(a) => [a]
  }

  /** The actions run for a stream of key presses, one press at a time. */
  function DispatchAll<A>(bindings: seq<Binding<A>>, keys: seq<string>): (ran: seq<A>)
    ensures |ran| <= |keys|
    decreases |keys|
  {
    if |keys| == 0 then []
    else RanFor(Dispatch(bindings, keys[0])) + DispatchAll(bindings, keys[1..])
  }

  /**
   * No state is carried between key presses: the actions run for two streams
   * in succession are those run for each stream alone, concatenated.
   */
  lemma {:induction false} DispatchAllSplit<A>(bindings: seq<Binding<A>>, keys1: seq<string>, keys2: seq<string>)
    ensures DispatchAll(bindings, keys1 + keys2) == DispatchAll(bindings, keys1) + DispatchAll(bindings, keys2)
    decreases |keys1|
  {
    if |keys1| == 0 {
      assert keys1 + keys2 == keys2;
    } else {
      var head := RanFor(Dispatch(bindings, keys1[0]));
      assert (keys1 + keys2)[0] == keys1[0];
      assert (keys1 + keys2)[1..] == keys1[1..] + keys2;
      DispatchAllSplit(bindings, keys1[1..], keys2);
      calc {
        DispatchAll(bindings, keys1 + keys2);
        head + DispatchAll(bindings, keys1[1..] + keys2);
        head + (DispatchAll(bindings, keys1[1..]) + DispatchAll(bindings, keys2));
        (head + DispatchAll(bindings, keys1[1..])) + DispatchAll(bindings, keys2);
        DispatchAll(bindings, keys1) + DispatchAll(bindings, keys2);
      }
    }
  }
}
