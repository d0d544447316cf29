/** From currency cycles to pair symbols (src/brain/graph.rs, `re_cycles`,
    `find_differences` and `clearing`). A cycle is a sequence of currency
    symbols; the pair list `clean` is the sequence of traded pair symbols. */
module CyclePairs {
  import opened Wrappers

  /** The neighbour of `cycle[i]`, wrapping from the last entry to the first. */
  function Successor(cycle: seq<string>, i: nat): string
    requires i < |cycle|
  {
    cycle[(i + 1) % |cycle|]
  }

  /** The pair symbol joining `cycle[i]` and its successor: `first + second`
      when it is traded, else `second + first` when that is, else none. */
  function PairAt(cycle: seq<string>, i: nat, clean: seq<string>): (r: Option<string>)
    requires i < |cycle|
    ensures r.Some? ==> r.value in clean
    ensures r.Some? ==> r.value == cycle[i] + Successor(cycle, i) || r.value == Successor(cycle, i) + cycle[i]
    ensures cycle[i] + Successor(cycle, i) in clean ==> r == Some(cycle[i] + Successor(cycle, i))
    ensures r.None? <==> cycle[i] + Successor(cycle, i) !in clean && Successor(cycle, i) + cycle[i] !in clean
  {
    var first, second := cycle[i], Successor(cycle, i);
    if first + second in clean then Some(first + second)
    else if second + first in clean then Some(second + first)
    else None
  }

  /** The pair symbols of the first `n` adjacent pairs of `cycle`, in order,
      skipping the pairs with no traded symbol. */
  function ResolvedUpTo(cycle: seq<string>, clean: seq<string>, n: nat): seq<string>
    requires n <= |cycle|
  {
    if n == 0 then []
    else
      var prev := ResolvedUpTo(cycle, clean, n - 1);
      match PairAt(cycle, n - 1, clean)
      case None => prev
      case Some(p) => prev + [p]
  }

  /** The pair symbols of one cycle, the wrap-around pair included. */
  function Resolve(cycle: seq<string>, clean: seq<string>): seq<string> {
    ResolvedUpTo(cycle, clean, |cycle|)
  }

  /** `re_cycles`: one entry per input cycle, in order. */
  method ReCycles(cycles: seq<seq<string>>, clean: seq<string>) returns (result: seq<seq<string>>)
    ensures |result| == |cycles|
    ensures forall c :: 0 <= c < |cycles| ==> result[c] == Resolve(cycles[c], clean)
  {
    result := [];
    for c := 0 to |cycles|
      invariant |result| == c
      invariant forall c' :: 0 <= c' < c ==> result[c'] == Resolve(cycles[c'], clean)
    {
      var cycle := cycles[c];
      var len := |cycle|;
      var inner := [];
      for i := 0 to len
        invariant inner == ResolvedUpTo(cycle, clean, i)
      {
        var first := cycle[i];
        var second := cycle[(i + 1) % len];
        var concatenated := first + second;
        var reversed := second + first;
        if concatenated in clean {
          inner := inner + [concatenated];
        } else if reversed in clean {
          inner := inner + [reversed];
        }
      }
      result := result + [inner];
    }
  }

  /** A resolved cycle has at most one pair symbol per entry, and each of
      them is traded. */
  lemma {:induction false} ResolvedBounds(cycle: seq<string>, clean: seq<string>, n: nat)
    requires n <= |cycle|
    ensures |ResolvedUpTo(cycle, clean, n)| <= n
    ensures forall p :: p in ResolvedUpTo(cycle, clean, n) ==> p in clean
  {
    if n > 0 {
      ResolvedBounds(cycle, clean, n - 1);
    }
  }

  /** When every adjacent pair of the cycle is traded one way or the other,
      nothing is skipped: entry `i` of the result is the pair of `cycle[i]`
      and its successor. */
  lemma {:induction false} ResolvedComplete(cycle: seq<string>, clean: seq<string>, n: nat)
    requires n <= |cycle|
    requires forall i :: 0 <= i < n ==> PairAt(cycle, i, clean).Some?
    ensures |ResolvedUpTo(cycle, clean, n)| == n
    ensures forall i :: 0 <= i < n ==> ResolvedUpTo(cycle, clean, n)[i] == PairAt(cycle, i, clean).value
  {
    if n > 0 {
      ResolvedComplete(cycle, clean, n - 1);
    }
  }

  /** A triangle of three currencies resolves to its three pair symbols,
      in the order the adjacent pairs are visited. */
  lemma TriangleResolves()
    ensures Resolve(["BTC", "ETH", "USDT"], ["BTCUSDT", "ETHBTC", "ETHUSDT"])
            == ["ETHBTC", "ETHUSDT", "BTCUSDT"]
  {
    var cycle, clean := ["BTC", "ETH", "USDT"], ["BTCUSDT", "ETHBTC", "ETHUSDT"];
    assert "BTC" + "ETH" == "BTCETH" && "ETH" + "BTC" == "ETHBTC";
    assert "BTCETH"[0] != "ETHBTC"[0] && |"BTCETH"| != |"BTCUSDT"| == |"ETHUSDT"|;
    assert "ETH" + "USDT" == "ETHUSDT";
    assert "USDT" + "BTC" == "USDTBTC" && "BTC" + "USDT" == "BTCUSDT";
    assert "USDTBTC"[0] != "BTCUSDT"[0] && "USDTBTC"[0] != "ETHUSDT"[0] && |"USDTBTC"| != |"ETHBTC"|;
    assert PairAt(cycle, 0, clean) == Some("ETHBTC");
    assert PairAt(cycle, 1, clean) == Some("ETHUSDT");
    assert PairAt(cycle, 2, clean) == Some("BTCUSDT");
    assert ResolvedUpTo(cycle, clean, 1) == ["ETHBTC"];
    assert ResolvedUpTo(cycle, clean, 2) == ["ETHBTC", "ETHUSDT"];
  }

  /** Every symbol that occurs in some cycle of `cycles`. */
  function Mentioned(cycles: seq<seq<string>>): (r: set<string>)
    ensures forall x :: x in r <==> exists c :: c in cycles && x in c
  {
    set c, x | c in cycles && x in c :: x
  }

  /** `s` without the elements of `drop`, in the order of `s`. */
  function Without(s: seq<string>, drop: set<string>): (r: seq<string>)
    ensures |r| <= |s|
    ensures forall x :: x in r <==> x in s && x !in drop
  {
    if s == [] then []
    else if s[0] in drop then Without(s[1..], drop)
    else [s[0]] + Without(s[1..], drop)
  }

  /** `s` restricted to the elements of `keep`, in the order of `s`. */
  function Within(s: seq<string>, keep: set<string>): (r: seq<string>)
    ensures |r| <= |s|
    ensures forall x :: x in r <==> x in s && x in keep
  {
    if s == [] then []
    else if s[0] in keep then [s[0]] + Within(s[1..], keep)
    else Within(s[1..], keep)
  }

  /** Filtering keeps the order: it distributes over concatenation. */
  lemma {:induction false} WithoutAppend(s: seq<string>, t: seq<string>, drop: set<string>)
    ensures Without(s + t, drop) == Without(s, drop) + Without(t, drop)
  {
    if s != [] {
      assert (s + t)[0] == s[0] && (s + t)[1..] == s[1..] + t;
      WithoutAppend(s[1..], t, drop);
      if s[0] !in drop {
        assert Without(s + t, drop) == [s[0]] + Without(s[1..] + t, drop);
      }
    } else {
      assert s + t == t;
    }
  }

  /** Filtering keeps every kept element as often as `s` holds it. */
  lemma {:induction false} WithoutCounts(s: seq<string>, drop: set<string>)
    ensures forall x :: x !in drop ==> multiset(Without(s, drop))[x] == multiset(s)[x]
    ensures forall x :: x in drop ==> multiset(Without(s, drop))[x] == 0
  {
    if s != [] {
      WithoutCounts(s[1..], drop);
      assert s == [s[0]] + s[1..];
    }
  }

  /** The two filters split `s` into two parts that together hold every
      element of `s` exactly as often as `s` does. */
  lemma {:induction false} Partition(s: seq<string>, keep: set<string>)
    ensures multiset(Within(s, keep)) + multiset(Without(s, keep)) == multiset(s)
  {
    if s != [] {
      var t := s[1..];
      Partition(t, keep);
      assert multiset(s) == multiset{s[0]} + multiset(t) by {
        assert s == [s[0]] + t;
      }
      if s[0] in keep {
        assert Within(s, keep) == [s[0]] + Within(t, keep);
        assert Without(s, keep) == Without(t, keep);
      } else {
        assert Within(s, keep) == Within(t, keep);
        assert Without(s, keep) == [s[0]] + Without(t, keep);
      }
    }
  }

  /** Filtering by two sets that agree on the elements of `s`. */
  lemma {:induction false} WithoutWithin(s: seq<string>, drop: set<string>, keep: set<string>)
    requires forall x :: x in s ==> (x in drop <==> x !in keep)
    ensures Without(s, drop) == Within(s, keep)
  {
    if s != [] {
      WithoutWithin(s[1..], drop, keep);
    }
  }

  /** Wraps every symbol in a vector of its own. */
  function Singletons(s: seq<string>): (r: seq<seq<string>>)
    ensures |r| == |s| && forall k :: 0 <= k < |s| ==> r[k] == [s[k]]
  {
    if s == [] then [] else [[s[0]]] + Singletons(s[1..])
  }

  /** `find_differences`: the pairs of `clean` that no cycle of
      `needCycles` mentions, one singleton per pair, in the order of `clean`. */
  function FindDifferences(clean: seq<string>, needCycles: seq<seq<string>>): (r: seq<seq<string>>)
    ensures forall k :: 0 <= k < |r| ==> |r[k]| == 1
    ensures forall x :: [x] in r <==> x in clean && x !in Mentioned(needCycles)
  {
    var rest := Without(clean, Mentioned(needCycles));
    var r := Singletons(rest);
    assert forall x :: [x] in r ==> x in rest by {
      forall x | [x] in r ensures x in rest {
        var k :| 0 <= k < |r| && r[k] == [x];
      }
    }
    assert forall k :: 0 <= k < |rest| ==> [rest[k]] == r[k];
    r
  }

  /** `clearing`: the pairs of `clean` that no vector of `diff` mentions, in
      the order of `clean`. */
  function Clearing(clean: seq<string>, diff: seq<seq<string>>): (r: seq<string>)
    ensures |r| <= |clean|
    ensures forall x :: x in r <==> x in clean && forall c :: c in diff ==> x !in c
  {
    Without(clean, Mentioned(diff))
  }

  /** Clearing away the differences leaves exactly the pairs the cycles
      need, in the order of `clean`; with the differences they partition
      `clean`. */
  lemma ClearingKeepsNeeded(clean: seq<string>, needCycles: seq<seq<string>>)
    ensures Clearing(clean, FindDifferences(clean, needCycles)) == Within(clean, Mentioned(needCycles))
    ensures multiset(Clearing(clean, FindDifferences(clean, needCycles)))
            + multiset(Without(clean, Mentioned(needCycles))) == multiset(clean)
  {
    var need := Mentioned(needCycles);
    var diff := FindDifferences(clean, needCycles);
    forall x | x in clean
      ensures x in Mentioned(diff) <==> x !in need
    {
      if x !in need {
        assert [x] in diff;
        assert x in [x];
      }
      if x in Mentioned(diff) {
        var c :| c in diff && x in c;
        var k :| 0 <= k < |diff| && diff[k] == c;
        assert c == [c[0]];
      }
    }
    WithoutWithin(clean, Mentioned(diff), need);
    Partition(clean, need);
  }
}
