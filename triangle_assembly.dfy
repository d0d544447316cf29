/** Ordering the three pair symbols of a triangle into legs
    (src/brain/graph.rs, `create_triangles`). Starting from a base currency,
    each call takes the first remaining pair that continues from the current
    currency in the current direction, records it as a leg, moves to the
    other currency of that pair, and chooses the direction of the next leg.
    The patterns `^X` and `X$` are the literal prefix and suffix tests. */
module TriangleAssembly {
  import opened Wrappers
  import opened Text
  import opened BrainSets
  import opened Triangle

  /** `symbol` matches pair `e` as `^symbol` (when `sell`) or as `symbol$`. */
  predicate Fits(symbol: string, e: string, sell: bool) {
    if sell then IsPrefix(symbol, e) else IsSuffix(symbol, e)
  }

  /** A base symbol that can anchor the search: it is non-empty (an empty
      match leaves `current` empty and the search goes on) and it matches
      some remaining pair. */
  predicate Anchors(symbol: string, pairs: seq<string>, sell: bool) {
    symbol != [] && exists e :: e in pairs && Fits(symbol, e, sell)
  }

  /** The first base currency from index `k` on that anchors, or "". */
  function AnchorFrom(base: seq<BaseCurrency>, pairs: seq<string>, sell: bool, k: nat): (r: string)
    requires k <= |base|
    ensures r == [] ==> forall m :: k <= m < |base| ==> !Anchors(base[m].symbol, pairs, sell)
    ensures r != [] ==> exists m :: k <= m < |base| && base[m].symbol == r && Anchors(r, pairs, sell)
                                    && forall m' :: k <= m' < m ==> !Anchors(base[m'].symbol, pairs, sell)
    decreases |base| - k
  {
    if k == |base| then []
    else if Anchors(base[k].symbol, pairs, sell) then base[k].symbol
    else AnchorFrom(base, pairs, sell, k + 1)
  }

  /** The currency the call starts from: `current` itself when it is set;
      otherwise, for "SELL" the first base currency that starts some pair,
      for "BUY" the first that ends some pair, and "" when there is none or
      the direction is neither. */
  function Anchor(base: seq<BaseCurrency>, pairs: seq<string>, current: string, direction: string): string {
    if current != [] then current
    else if direction == SELL then AnchorFrom(base, pairs, true, 0)
    else if direction == BUY then AnchorFrom(base, pairs, false, 0)
    else []
  }

  /** Pair `e` continues from `current` in `direction`: a "BUY" leg ends
      with it and a "SELL" leg starts with it. */
  predicate LegFits(e: string, current: string, direction: string) {
    (direction == BUY && IsSuffix(current, e)) || (direction == SELL && IsPrefix(current, e))
  }

  /** The index of the first pair from index `k` on that continues from
      `current` in `direction`. */
  function FirstLeg(pairs: seq<string>, current: string, direction: string, k: nat): (r: Option<nat>)
    requires k <= |pairs|
    ensures r.Some? ==> k <= r.value < |pairs| && LegFits(pairs[r.value], current, direction)
    ensures r.Some? ==> forall m :: k <= m < r.value ==> !LegFits(pairs[m], current, direction)
    ensures r.None? ==> forall m :: k <= m < |pairs| ==> !LegFits(pairs[m], current, direction)
    decreases |pairs| - k
  {
    if k == |pairs| then None
    else if LegFits(pairs[k], current, direction) then Some(k)
    else FirstLeg(pairs, current, direction, k + 1)
  }

  /** The other currency of pair `e`: what precedes `current` when `e` ends
      with it, else what follows `current` when `e` starts with it. */
  function Pivot(e: string, current: string): (r: string)
    ensures IsSuffix(current, e) ==> r + current == e
    ensures !IsSuffix(current, e) && IsPrefix(current, e) ==> current + r == e
    ensures !IsSuffix(current, e) && !IsPrefix(current, e) ==> r == current
  {
    if IsSuffix(current, e) then e[..|e| - |current|]
    else if IsPrefix(current, e) then e[|current|..]
    else current
  }

  /** A leg joins the currency before it and the currency after it. */
  lemma LegJoins(e: string, current: string, direction: string)
    requires LegFits(e, current, direction)
    ensures e == Pivot(e, current) + current || e == current + Pivot(e, current)
    ensures |Pivot(e, current)| + |current| == |e|
  {
    if !IsSuffix(current, e) {
      assert IsPrefix(current, e);
    }
  }

  /** `nc` mentions `current` at one of its ends. */
  predicate MentionsAtEnd(nc: string, current: string) {
    IsPrefix(current, nc) || IsSuffix(current, nc)
  }

  /** The direction of the next leg, from the first remaining pair (from
      index `k` on) that mentions the new `current`: "SELL" when the pair
      starts with it, "BUY" when it only ends with it, and `direction`
      unchanged when no pair mentions it. */
  function NextDirection(rest: seq<string>, current: string, direction: string, k: nat): (r: string)
    requires k <= |rest|
    ensures r == direction || r == SELL || r == BUY
    ensures (forall m :: k <= m < |rest| ==> !MentionsAtEnd(rest[m], current)) ==> r == direction
    ensures forall m :: k <= m < |rest| && MentionsAtEnd(rest[m], current)
                        && (forall m' :: k <= m' < m ==> !MentionsAtEnd(rest[m'], current)) ==>
                          r == (if IsPrefix(current, rest[m]) then SELL else BUY)
    decreases |rest| - k
  {
    if k == |rest| then direction
    else if IsPrefix(current, rest[k]) then SELL
    else if IsSuffix(current, rest[k]) then BUY
    else NextDirection(rest, current, direction, k + 1)
  }

  /** `pairs` without its entry at index `i`. */
  function RemoveAt(pairs: seq<string>, i: nat): (r: seq<string>)
    requires i < |pairs|
    ensures |r| == |pairs| - 1
    ensures multiset(r) + multiset{pairs[i]} == multiset(pairs)
    ensures forall k :: 0 <= k < |r| ==> r[k] == if k < i then pairs[k] else pairs[k + 1]
  {
    assert pairs == pairs[..i] + [pairs[i]] + pairs[i + 1..];
    pairs[..i] + pairs[i + 1..]
  }

  lemma SliceStep<T>(s: seq<T>, n: nat)
    requires n < |s|
    ensures s[n..] == [s[n]] + s[n + 1..]
  {
  }

  /** The pair symbols of a run of legs. */
  function Symbols(legs: seq<TriangleElement>): (r: seq<string>)
    ensures |r| == |legs| && forall k :: 0 <= k < |legs| ==> r[k] == legs[k].0
  {
    if legs == [] then [] else [legs[0].0] + Symbols(legs[1..])
  }

  /** The symbols from index `n` on: the one at `n`, then the rest. */
  lemma SymbolsStep(legs: seq<TriangleElement>, n: nat)
    requires n < |legs|
    ensures Symbols(legs[n..]) == [legs[n].0] + Symbols(legs[n + 1..])
  {
    SliceStep(legs, n);
    assert legs[n..][1..] == legs[n + 1..];
  }

  /** `create_triangles`: the accumulated legs and the final current
      currency. The accumulator is kept and only extended, by at most one
      leg per pair; each call removes one pair, so `|pairs|` decreases. */
  function CreateTriangles(pairs: seq<string>, base: seq<BaseCurrency>, current: string,
                           direction: string, acc: seq<TriangleElement>): (r: (seq<TriangleElement>, string))
    ensures |acc| <= |r.0| <= |acc| + |pairs| && r.0[..|acc|] == acc
    decreases |pairs|
  {
    if pairs == [] then (acc, current)
    else
      var cur := Anchor(base, pairs, current, direction);
      match FirstLeg(pairs, cur, direction, 0)
      case None => (acc, cur)
      case Some(i) =>
        var rest := RemoveAt(pairs, i);
        var next := Pivot(pairs[i], cur);
        var acc' := acc + [(pairs[i], direction)];
        if rest == [] then (acc', next)
        else
          var r := CreateTriangles(rest, base, next, NextDirection(rest, next, direction, 0), acc');
          assert r.0[..|acc|] == r.0[..|acc'|][..|acc|];
          r
  }

  /** With no pair left the call returns the accumulator and `current`
      untouched; when no pair continues from the start it adds nothing
      either; otherwise its first new leg is the first pair that continues
      from the start, in the current direction. */
  lemma FirstCall(pairs: seq<string>, base: seq<BaseCurrency>, current: string,
                  direction: string, acc: seq<TriangleElement>)
    ensures pairs == [] ==> CreateTriangles(pairs, base, current, direction, acc) == (acc, current)
    ensures var r := CreateTriangles(pairs, base, current, direction, acc);
            var i := FirstLeg(pairs, Anchor(base, pairs, current, direction), direction, 0);
            (|r.0| == |acc| <==> pairs == [] || i.None?)
            && (|r.0| > |acc| ==> i.Some? && r.0[|acc|] == (pairs[i.value], direction))
  {
    var r := CreateTriangles(pairs, base, current, direction, acc);
    if pairs != [] {
      var cur := Anchor(base, pairs, current, direction);
      match FirstLeg(pairs, cur, direction, 0)
      case None =>
      case Some(i) =>
        var acc' := acc + [(pairs[i], direction)];
        var rest := RemoveAt(pairs, i);
        if rest != [] {
          var next := Pivot(pairs[i], cur);
          var r' := CreateTriangles(rest, base, next, NextDirection(rest, next, direction, 0), acc');
          assert r == r';
          assert r.0[|acc|] == r.0[..|acc'|][|acc|];
        }
    }
  }

  /** The legs from `n` on, given the leg at `n` and the legs after it. */
  lemma LegsStep(legs: seq<TriangleElement>, n: nat, e: string, direction: string,
                 pairs: seq<string>, rest: seq<string>)
    requires n < |legs| && legs[n] == (e, direction) && (direction == BUY || direction == SELL)
    requires multiset(Symbols(legs[n + 1..])) <= multiset(rest)
    requires multiset(rest) + multiset{e} == multiset(pairs)
    requires forall k :: n + 1 <= k < |legs| ==> legs[k].1 == BUY || legs[k].1 == SELL
    ensures multiset(Symbols(legs[n..])) <= multiset(pairs)
    ensures forall k :: n <= k < |legs| ==> legs[k].1 == BUY || legs[k].1 == SELL
  {
    SymbolsStep(legs, n);
  }

  /** Every new leg is one of the pairs, no pair is used twice, and every
      leg is a buy or a sell. */
  lemma {:induction false} LegsFromPairs(pairs: seq<string>, base: seq<BaseCurrency>, current: string,
                                         direction: string, acc: seq<TriangleElement>)
    ensures var r := CreateTriangles(pairs, base, current, direction, acc);
            multiset(Symbols(r.0[|acc|..])) <= multiset(pairs)
            && forall k :: |acc| <= k < |r.0| ==> r.0[k].1 == BUY || r.0[k].1 == SELL
    decreases |pairs|
  {
    var r := CreateTriangles(pairs, base, current, direction, acc);
    if pairs != [] {
      var cur := Anchor(base, pairs, current, direction);
      match FirstLeg(pairs, cur, direction, 0)
      case None =>
        assert r.0[|acc|..] == [];
      case Some(i) =>
        var e := pairs[i];
        var acc' := acc + [(e, direction)];
        var rest := RemoveAt(pairs, i);
        assert LegFits(e, cur, direction);
        if rest == [] {
          assert r.0[|acc|..] == [(e, direction)];
        } else {
          var next := Pivot(e, cur);
          var dir' := NextDirection(rest, next, direction, 0);
          LegsFromPairs(rest, base, next, dir', acc');
          assert r == CreateTriangles(rest, base, next, dir', acc');
          assert r.0[|acc|] == (e, direction) by {
            assert r.0[..|acc'|] == acc';
            assert r.0[|acc|] == r.0[..|acc'|][|acc|];
          }
          LegsStep(r.0, |acc|, e, direction, pairs, rest);
        }
    } else {
      assert r.0[|acc|..] == [];
    }
  }

  /** Legs that continue one from the other, starting from `current`: each
      pair fits the currency reached so far in its direction, and the next
      leg starts from the other currency of that pair. When a pair is the
      currency itself, nothing is left to continue from and the search
      anchors afresh, so the chain may restart there. */
  predicate Chained(legs: seq<TriangleElement>, current: string) {
    legs == []
    || (LegFits(legs[0].0, current, legs[0].1)
        && (Pivot(legs[0].0, current) != [] ==> Chained(legs[1..], Pivot(legs[0].0, current))))
  }

  /** The legs from `n` on chain from `current`, given that the leg at `n`
      fits it and the legs after it chain from where it lands. */
  lemma ChainStep(legs: seq<TriangleElement>, n: nat, current: string)
    requires n < |legs| && LegFits(legs[n].0, current, legs[n].1)
    requires Pivot(legs[n].0, current) != [] ==> Chained(legs[n + 1..], Pivot(legs[n].0, current))
    ensures Chained(legs[n..], current)
  {
    SliceStep(legs, n);
    assert legs[n..][1..] == legs[n + 1..];
  }

  /** The new legs of a call form one chain of trades from the currency the
      call anchors on: each pair continues from the currency the previous
      leg landed on. */
  lemma {:induction false} LegsChain(pairs: seq<string>, base: seq<BaseCurrency>, current: string,
                                     direction: string, acc: seq<TriangleElement>)
    requires pairs != []
    ensures Chained(CreateTriangles(pairs, base, current, direction, acc).0[|acc|..],
                    Anchor(base, pairs, current, direction))
    decreases |pairs|
  {
    var r := CreateTriangles(pairs, base, current, direction, acc);
    var cur := Anchor(base, pairs, current, direction);
    match FirstLeg(pairs, cur, direction, 0)
    case None =>
      assert r.0[|acc|..] == [];
    case Some(i) =>
      var e := pairs[i];
      var acc' := acc + [(e, direction)];
      var rest := RemoveAt(pairs, i);
      var next := Pivot(e, cur);
      assert r.0[|acc|] == (e, direction) && LegFits(e, cur, direction)
             && (next != [] ==> Chained(r.0[|acc| + 1..], next)) by {
        if rest == [] {
          assert r.0 == acc';
          assert r.0[|acc| + 1..] == [];
        } else {
          var dir' := NextDirection(rest, next, direction, 0);
          assert r == CreateTriangles(rest, base, next, dir', acc');
          LegsChain(rest, base, next, dir', acc');
          assert next != [] ==> Anchor(base, rest, next, dir') == next;
          assert r.0[..|acc'|] == acc';
          assert r.0[|acc|] == r.0[..|acc'|][|acc|];
        }
      }
      ChainStep(r.0, |acc|, cur);
  }

  /** The last call of the buy-started triangle below: from ETH, selling
      ETHUSDT lands on USDT. */
  lemma BuyTriangleLast(base: seq<BaseCurrency>, acc: seq<TriangleElement>)
    ensures CreateTriangles(["ETHUSDT"], base, "ETH", SELL, acc) == (acc + [("ETHUSDT", SELL)], "USDT")
  {
    var p3 := ["ETHUSDT"];
    assert "ETHUSDT"[..3] == "ETH";
    assert LegFits("ETHUSDT", "ETH", SELL);
    assert FirstLeg(p3, "ETH", SELL, 0) == Some(0);
    assert RemoveAt(p3, 0) == [];
    assert "ETHUSDT"[4..] != "ETH" && "ETHUSDT"[3..] == "USDT";
    assert Pivot("ETHUSDT", "ETH") == "USDT";
  }

  /** The middle call: from BTC, buying ETHBTC lands on ETH, and ETHUSDT
      starts with ETH, so the next leg sells. */
  lemma BuyTriangleMiddle(base: seq<BaseCurrency>, acc: seq<TriangleElement>)
    ensures CreateTriangles(["ETHBTC", "ETHUSDT"], base, "BTC", BUY, acc)
            == (acc + [("ETHBTC", BUY), ("ETHUSDT", SELL)], "USDT")
  {
    var p2 := ["ETHBTC", "ETHUSDT"];
    assert "ETHBTC"[3..] == "BTC";
    assert LegFits("ETHBTC", "BTC", BUY);
    assert FirstLeg(p2, "BTC", BUY, 0) == Some(0);
    assert RemoveAt(p2, 0) == ["ETHUSDT"];
    assert Pivot("ETHBTC", "BTC") == "ETH";
    assert "ETHUSDT"[..3] == "ETH";
    assert NextDirection(["ETHUSDT"], "ETH", BUY, 0) == SELL;
    BuyTriangleLast(base, acc + [("ETHBTC", BUY)]);
    assert acc + [("ETHBTC", BUY)] + [("ETHUSDT", SELL)] == acc + [("ETHBTC", BUY), ("ETHUSDT", SELL)];
  }

  /** USDT, the only base currency, ends BTCUSDT and so anchors a
      buy-started search. */
  lemma BuyAnchor(base: seq<BaseCurrency>, pairs: seq<string>)
    requires |base| == 1 && base[0].symbol == "USDT"
    requires pairs == ["BTCUSDT", "ETHBTC", "ETHUSDT"]
    ensures Anchor(base, pairs, "", BUY) == "USDT"
  {
    assert "BTCUSDT"[3..] == "USDT";
    assert pairs[0] in pairs && Fits("USDT", pairs[0], false);
    assert AnchorFrom(base, pairs, false, 1) == "";
  }

  /** BTCUSDT, the first pair, is the first to end with USDT. */
  lemma BuyFirstLeg(pairs: seq<string>)
    requires pairs == ["BTCUSDT", "ETHBTC", "ETHUSDT"]
    ensures FirstLeg(pairs, "USDT", BUY, 0) == Some(0)
  {
    assert "BTCUSDT"[3..] == "USDT";
    assert LegFits(pairs[0], "USDT", BUY);
  }

  /** Buying BTCUSDT from USDT lands on BTC. */
  lemma BuyPivot()
    ensures Pivot("BTCUSDT", "USDT") == "BTC"
  {
    assert "BTCUSDT"[3..] == "USDT";
  }

  /** ETHBTC, the first pair mentioning BTC, ends with it: keep buying. */
  lemma BuyNextDirection(rest: seq<string>)
    requires rest == ["ETHBTC", "ETHUSDT"]
    ensures NextDirection(rest, "BTC", BUY, 0) == BUY
  {
    assert "ETHBTC"[..3][0] != "BTC"[0] && "ETHBTC"[3..] == "BTC";
    assert !IsPrefix("BTC", rest[0]) && IsSuffix("BTC", rest[0]);
  }

  /** One call that finds a leg while other pairs remain: the rest of the
      search goes on from the other currency of that leg. */
  lemma LegStep(pairs: seq<string>, base: seq<BaseCurrency>, current: string,
                direction: string, acc: seq<TriangleElement>, i: nat)
    requires |pairs| >= 2
    requires FirstLeg(pairs, Anchor(base, pairs, current, direction), direction, 0) == Some(i)
    ensures var next := Pivot(pairs[i], Anchor(base, pairs, current, direction));
            var rest := RemoveAt(pairs, i);
            CreateTriangles(pairs, base, current, direction, acc)
            == CreateTriangles(rest, base, next, NextDirection(rest, next, direction, 0), acc + [(pairs[i], direction)])
  {
  }

  /** The first call of the buy-started triangle below: USDT anchors and
      the search goes on buying from BTC. */
  lemma BuyTriangleFirst(base: seq<BaseCurrency>, pairs: seq<string>)
    requires |base| == 1 && base[0].symbol == "USDT"
    requires pairs == ["BTCUSDT", "ETHBTC", "ETHUSDT"]
    ensures CreateTriangles(pairs, base, "", BUY, [])
            == CreateTriangles(["ETHBTC", "ETHUSDT"], base, "BTC", BUY, [("BTCUSDT", BUY)])
  {
    BuyAnchor(base, pairs);
    BuyFirstLeg(pairs);
    BuyPivot();
    var rest := RemoveAt(pairs, 0);
    assert rest == ["ETHBTC", "ETHUSDT"];
    BuyNextDirection(rest);
    assert pairs[0] == "BTCUSDT";
    LegStep(pairs, base, "", BUY, [], 0);
    assert [] + [(pairs[0], BUY)] == [("BTCUSDT", BUY)];
  }

  /** A buy-started triangle on USDT: the legs go USDT -> BTC -> ETH ->
      USDT, and the search ends back on the base currency, whatever its
      percentage. */
  lemma BuyTriangle(base: seq<BaseCurrency>, pairs: seq<string>)
    requires |base| == 1 && base[0].symbol == "USDT"
    requires pairs == ["BTCUSDT", "ETHBTC", "ETHUSDT"]
    ensures CreateTriangles(pairs, base, "", BUY, [])
            == ([("BTCUSDT", BUY), ("ETHBTC", BUY), ("ETHUSDT", SELL)], "USDT")
  {
    var acc: seq<TriangleElement> := [("BTCUSDT", BUY)];
    calc {
      CreateTriangles(pairs, base, "", BUY, []);
      == { BuyTriangleFirst(base, pairs); }
      CreateTriangles(["ETHBTC", "ETHUSDT"], base, "BTC", BUY, acc);
      == { BuyTriangleMiddle(base, acc); }
      (acc + [("ETHBTC", BUY), ("ETHUSDT", SELL)], "USDT");
      == { assert acc + [("ETHBTC", BUY), ("ETHUSDT", SELL)] == [("BTCUSDT", BUY), ("ETHBTC", BUY), ("ETHUSDT", SELL)]; }
      ([("BTCUSDT", BUY), ("ETHBTC", BUY), ("ETHUSDT", SELL)], "USDT");
    }
  }

  /** USDT starts none of the pairs, so a sell-started search finds no
      anchor and `current` stays empty. */
  lemma SellNoAnchor(base: seq<BaseCurrency>, pairs: seq<string>)
    requires |base| == 1 && base[0].symbol == "USDT"
    requires pairs == ["BTCUSDT", "ETHBTC", "ETHUSDT"]
    ensures Anchor(base, pairs, "", SELL) == ""
  {
    assert "BTCUSDT"[..4][0] != "USDT"[0] && "ETHBTC"[..4][0] != "USDT"[0] && "ETHUSDT"[..4][0] != "USDT"[0];
    assert forall e :: e in pairs ==> !Fits("USDT", e, true);
    assert AnchorFrom(base, pairs, true, 1) == "";
  }

  /** The empty `current` starts every pair, so the first pair is taken. */
  lemma SellFirstLeg(pairs: seq<string>)
    requires pairs == ["BTCUSDT", "ETHBTC", "ETHUSDT"]
    ensures FirstLeg(pairs, "", SELL, 0) == Some(0)
  {
    assert pairs[0][..0] == "";
    assert LegFits(pairs[0], "", SELL);
  }

  /** From the whole pair BTCUSDT no remaining pair goes on: neither
      ETHBTC nor ETHUSDT starts or ends with it. */
  lemma SellStuck(rest: seq<string>)
    requires rest == ["ETHBTC", "ETHUSDT"]
    ensures NextDirection(rest, "BTCUSDT", SELL, 0) == SELL
    ensures FirstLeg(rest, "BTCUSDT", SELL, 0) == None
  {
    assert |"BTCUSDT"| > |rest[0]| && |"BTCUSDT"| == |rest[1]| && "BTCUSDT"[0] != rest[1][0];
    assert !MentionsAtEnd(rest[0], "BTCUSDT") && !MentionsAtEnd(rest[1], "BTCUSDT");
  }

  /** A sell-started search anchors only on a base currency that starts
      some pair; when none does, the empty pattern matches the first pair,
      that whole pair becomes `current`, and no other pair continues from
      it: one leg and no triangle. */
  lemma SellWithoutAnchor(base: seq<BaseCurrency>, pairs: seq<string>)
    requires |base| == 1 && base[0].symbol == "USDT"
    requires pairs == ["BTCUSDT", "ETHBTC", "ETHUSDT"]
    ensures CreateTriangles(pairs, base, "", SELL, []) == ([("BTCUSDT", SELL)], "BTCUSDT")
  {
    SellNoAnchor(base, pairs);
    SellFirstLeg(pairs);
    assert Pivot(pairs[0], "") == "BTCUSDT";
    var rest := RemoveAt(pairs, 0);
    assert rest == ["ETHBTC", "ETHUSDT"];
    SellStuck(rest);
    LegStep(pairs, base, "", SELL, [], 0);
    assert CreateTriangles(rest, base, "BTCUSDT", SELL, [("BTCUSDT", SELL)]) == ([("BTCUSDT", SELL)], "BTCUSDT");
  }
}
