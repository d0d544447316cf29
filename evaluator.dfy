/** The per-tick evaluator (src/brain/mod.rs): the last-write-wins price
    storage, the reverse index from pair symbols to the triangles that
    trade them, the three-leg profit calculation, the choice of the most
    profitable triangle, and the warm-up gate in front of it. The shared
    globals of the source (price storage, count, mode flag, reverse index,
    rate, candidate queue) are the fields of one `Evaluator` object, updated
    one tick at a time. */
module Brain {
  import opened Wrappers
  import opened Decimal
  import opened Triangle

  /** The legs of a triangle, as the assembler produced them. */
  type Legs = seq<TriangleElement>

  /** Pair symbol to (price text, volume text). */
  type Prices = map<string, (string, string)>

  /** Pair symbol to the triangles that trade it. */
  type SymbolRefTriangles = map<string, map<TriangleKey, Legs>>

  /** The ways a calculation aborts; the source panics in each case. */
  datatype Failure =
    | LegMissing                   // `t[1]` or `t[2]` out of bounds
    | UnparsablePrice(text: string) // `BigDecimal::from_str(..).unwrap()`
    | DivisionByZero               // `BigDecimal` division by zero

  /** Digits kept after each leg. */
  const LEG_SCALE: nat := 10
  /** Digits kept of the earn percentage. */
  const EARN_SCALE: nat := 2

  /** `DataStorage`: the latest (price, volume) of every symbol. */
  class DataStorage {
    var entries: Prices

    constructor ()
      ensures entries == map[]
    {
      entries := map[];
    }

    /** `insert`: the last write for a symbol wins. */
    method Insert(symbol: string, price: string, volume: string)
      modifies this
      ensures entries == old(entries)[symbol := (price, volume)]
      ensures |entries| == |old(entries)| + (if symbol in old(entries) then 0 else 1)
    {
      entries := entries[symbol := (price, volume)];
    }

    /** `count`: the number of distinct symbols stored. */
    method Count() returns (n: nat)
      ensures n == |entries.Keys|
    {
      n := |entries|;
    }
  }

  /** The price text of `pair`, `"0.0"` when there is none. */
  function PriceText(spm: Prices, pair: string): string {
    if pair in spm then spm[pair].0 else "0.0"
  }

  /** The price of `pair` as a number; a missing price reads as zero. */
  function Price(spm: Prices, pair: string): (r: Result<real, Failure>)
    ensures pair !in spm ==> r == Ok(0.0)
    ensures r.Ok? <==> ParseDecimal(PriceText(spm, pair)).Some?
    ensures r.Ok? ==> r.value == ParseDecimal(PriceText(spm, pair)).value
  {
    ZeroText();
    match ParseDecimal(PriceText(spm, pair))
    case None => Err(UnparsablePrice(PriceText(spm, pair)))
    case Some(p) => Ok(p)
  }

  /** One leg: SELL multiplies by the price, BUY divides by it, each cut to
      `LEG_SCALE` digits; any other direction leaves the amount alone. */
  function Trade(amount: real, direction: string, price: real): (r: Result<real, Failure>)
    ensures direction != SELL && direction != BUY ==> r == Ok(amount)
    ensures r.Err? <==> direction == BUY && price == 0.0
    ensures direction == SELL && amount * price >= 0.0 ==>
              0.0 <= r.value <= amount * price && amount * price - r.value < 1.0 / Pow10(LEG_SCALE) as real
    ensures direction == BUY && price != 0.0 && amount / price >= 0.0 ==>
              0.0 <= r.value <= amount / price && amount / price - r.value < 1.0 / Pow10(LEG_SCALE) as real
  {
    if direction == SELL then
      RescaleNonNegativeIf(amount * price, LEG_SCALE);
      Ok(Rescale(amount * price, LEG_SCALE))
    else if direction == BUY then
      if price == 0.0 then Err(DivisionByZero)
      else
        RescaleNonNegativeIf(amount / price, LEG_SCALE);
        Ok(Rescale(amount / price, LEG_SCALE))
    else Ok(amount)
  }

  lemma RescaleNonNegativeIf(x: real, scale: nat)
    ensures x >= 0.0 ==> 0.0 <= Rescale(x, scale) <= x && x - Rescale(x, scale) < 1.0 / Pow10(scale) as real
  {
    if x >= 0.0 {
      RescaleNonNegative(x, scale);
    }
  }

  /** The earn percentage of ending with `amount` units after starting with
      one: `(amount - 1) / amount * 100`, cut to `EARN_SCALE` digits. */
  function Earn(amount: real): (r: Result<real, Failure>)
    ensures r.Err? <==> amount == 0.0
  {
    if amount == 0.0 then Err(DivisionByZero)
    else Ok(Rescale((amount - 1.0) / amount * 100.0, EARN_SCALE))
  }

  /** A positive final amount earns less than 100 percent. From the
      starting unit up it earns nothing negative, and below it nothing
      positive; a loss under 0.01 percent truncates to an earn of 0. */
  lemma EarnBounds(amount: real)
    requires amount > 0.0
    ensures Earn(amount).Ok? && Earn(amount).value < 100.0
    ensures amount >= 1.0 ==> Earn(amount).value >= 0.0
    ensures amount < 1.0 ==> Earn(amount).value <= 0.0
  {
    var x := (amount - 1.0) / amount * 100.0;
    assert x == 100.0 - 100.0 / amount;
    DivideBounds(100.0, 0.0, amount);
    assert x < 100.0;
    if x >= 0.0 {
      RescaleNonNegative(x, EARN_SCALE);
    } else {
      RescaleNegative(x, EARN_SCALE);
    }
    if amount >= 1.0 {
      DivideBounds(100.0, 100.0, amount);
      assert x >= 0.0;
    } else {
      DivideStrict(100.0 * amount, 100.0, amount);
      assert 100.0 * amount / amount == 100.0;
      assert x < 0.0;
    }
  }

  /** The trade of one leg at the price of its pair fails only as a buy at
      price zero. */
  predicate LegTrades(spm: Prices, pair: string, direction: string) {
    Price(spm, pair).Ok? && !(direction == BUY && Price(spm, pair).value == 0.0)
  }

  /** The amount one unit of the starting currency becomes through the
      three legs, leg 1 in the direction of `key.d` and legs 2 and 3 in
      their stored directions. */
  function FinalAmount(spm: Prices, key: TriangleKey, t: Legs): (r: Result<real, Failure>)
    ensures r.Ok? <==> |t| >= 3 && LegTrades(spm, t[0].0, key.d) && LegTrades(spm, t[1].0, t[1].1)
                       && LegTrades(spm, t[2].0, t[2].1)
    ensures r.Ok? ==>
              var a1 := Trade(1.0, key.d, Price(spm, t[0].0).value);
              a1.Ok? && var a2 := Trade(a1.value, t[1].1, Price(spm, t[1].0).value);
              a2.Ok? && Trade(a2.value, t[2].1, Price(spm, t[2].0).value) == Ok(r.value)
  {
    if |t| < 3 then Err(LegMissing)
    else
      match (Price(spm, t[0].0), Price(spm, t[1].0), Price(spm, t[2].0))
      case (Err(e), _, _) => Err(e)
      case (_, Err(e), _) => Err(e)
      case (_, _, Err(e)) => Err(e)
      case (Ok(p1), Ok(p2), Ok(p3)) =>
        match Trade(1.0, key.d, p1)
        case Err(e) => Err(e)
        case Ok(a1) =>
          match Trade(a1, t[1].1, p2)
          case Err(e) => Err(e)
          case Ok(a2) => Trade(a2, t[2].1, p3)
  }

  /** `calculate_triangle`: the final amount of the three legs and its earn
      percentage. It succeeds exactly when every leg trades and the final
      amount is not zero. */
  function CalculateTriangle(spm: Prices, key: TriangleKey, t: Legs): (r: Result<(real, real), Failure>)
    ensures |t| < 3 ==> r == Err(LegMissing)
    ensures r.Ok? <==> FinalAmount(spm, key, t).Ok? && FinalAmount(spm, key, t).value != 0.0
    ensures r.Ok? ==> Ok(r.value.0) == FinalAmount(spm, key, t) && Earn(r.value.0) == Ok(r.value.1)
  {
    match FinalAmount(spm, key, t)
    case Err(e) => Err(e)
    case Ok(a3) =>
      match Earn(a3)
      case Err(e) => Err(e)
      case Ok(earn) => Ok((a3, earn))
  }

  /** The stored direction of the first leg plays no part: leg 1 trades in
      the direction of `key.d`. */
  lemma FirstLegUsesKey(spm: Prices, key: TriangleKey, t: Legs, d: string)
    requires |t| >= 1
    ensures CalculateTriangle(spm, key, t) == CalculateTriangle(spm, key, t[0 := (t[0].0, d)])
  {
    var t' := t[0 := (t[0].0, d)];
    assert |t'| == |t| && t'[0].0 == t[0].0;
    assert |t| >= 3 ==> t'[1] == t[1] && t'[2] == t[2];
  }

  predicate IsTrade(direction: string) {
    direction == SELL || direction == BUY
  }

  /** Once the amount is zero, a leg keeps it zero or fails. */
  lemma ZeroStays(direction: string, price: real)
    ensures Trade(0.0, direction, price).Ok? ==> Trade(0.0, direction, price).value == 0.0
  {
    assert Trunc(0.0) == 0;
  }

  /** A leg that trades at price zero leaves nothing or fails. */
  lemma ZeroPriceEmpties(amount: real, direction: string)
    requires IsTrade(direction)
    ensures Trade(amount, direction, 0.0).Ok? ==> Trade(amount, direction, 0.0).value == 0.0
  {
    assert Trunc(0.0) == 0;
  }

  /** A missing price is read as zero instead of skipping the triangle, so
      a triangle with a missing price on a traded leg always aborts: the
      amount drops to zero (or a division by zero happens on the way) and
      the earn formula then divides by zero. */
  lemma {:induction false} MissingPriceAborts(spm: Prices, key: TriangleKey, t: Legs)
    requires |t| >= 3 && IsTrade(key.d) && IsTrade(t[1].1) && IsTrade(t[2].1)
    requires t[0].0 !in spm || t[1].0 !in spm || t[2].0 !in spm
    ensures CalculateTriangle(spm, key, t).Err?
  {
    var r1, r2, r3 := Price(spm, t[0].0), Price(spm, t[1].0), Price(spm, t[2].0);
    if r1.Ok? && r2.Ok? && r3.Ok? {
      var p1, p2, p3 := r1.value, r2.value, r3.value;
      var s1 := Trade(1.0, key.d, p1);
      if s1.Ok? {
        var a1 := s1.value;
        if p1 == 0.0 { ZeroPriceEmpties(1.0, key.d); }
        var s2 := Trade(a1, t[1].1, p2);
        if s2.Ok? {
          var a2 := s2.value;
          if p2 == 0.0 { ZeroPriceEmpties(a1, t[1].1); }
          if a1 == 0.0 { ZeroStays(t[1].1, p2); }
          var s3 := Trade(a2, t[2].1, p3);
          if s3.Ok? {
            if p3 == 0.0 { ZeroPriceEmpties(a2, t[2].1); }
            if a2 == 0.0 { ZeroStays(t[2].1, p3); }
            assert s3.value == 0.0;
          }
        }
      }
    }
  }

  /** With no traded leg the unit comes back unchanged and earns nothing. */
  lemma NoTradeNoEarn(spm: Prices, key: TriangleKey, t: Legs)
    requires |t| >= 3 && !IsTrade(key.d) && !IsTrade(t[1].1) && !IsTrade(t[2].1)
    requires ParseDecimal(PriceText(spm, t[0].0)).Some? && ParseDecimal(PriceText(spm, t[1].0)).Some?
    requires ParseDecimal(PriceText(spm, t[2].0)).Some?
    ensures CalculateTriangle(spm, key, t) == Ok((1.0, 0.0))
  {
    var p1, p2, p3 := Price(spm, t[0].0).value, Price(spm, t[1].0).value, Price(spm, t[2].0).value;
    assert Trade(1.0, key.d, p1) == Ok(1.0);
    assert Trade(1.0, t[1].1, p2) == Ok(1.0);
    assert Trade(1.0, t[2].1, p3) == Ok(1.0);
    EarnOfUnit();
  }

  /** Ending with the unit one started with earns nothing. */
  lemma EarnOfUnit()
    ensures Earn(1.0) == Ok(0.0)
  {
    assert Trunc(0.0) == 0;
  }

  /** A triangle that earns something positive, with a positive final
      amount, ended with more than the unit it started with. */
  lemma EarnMeansGain(spm: Prices, key: TriangleKey, t: Legs)
    requires CalculateTriangle(spm, key, t).Ok?
    requires CalculateTriangle(spm, key, t).value.0 > 0.0
    ensures CalculateTriangle(spm, key, t).value.1 > 0.0 ==> CalculateTriangle(spm, key, t).value.0 > 1.0
    ensures CalculateTriangle(spm, key, t).value.0 >= 1.0 ==> CalculateTriangle(spm, key, t).value.1 >= 0.0
  {
    EarnBounds(CalculateTriangle(spm, key, t).value.0);
  }

  /** The triangles of `triangles` that name `v`. */
  function Matching(triangles: map<TriangleKey, Legs>, v: string): (r: map<TriangleKey, Legs>)
    ensures forall k :: k in r <==> k in triangles && Mentions(k, v)
    ensures forall k :: k in r ==> r[k] == triangles[k]
  {
    map k | k in triangles && Mentions(k, v) :: triangles[k]
  }

  /** Every pair symbol named by some triangle (`unique_symbols` of
      `initialize_observers`). */
  function UniqueSymbols(triangles: map<TriangleKey, Legs>): (r: set<string>)
    ensures forall v :: v in r <==> exists k :: k in triangles && Mentions(k, v)
  {
    (set k | k in triangles :: k.a) + (set k | k in triangles :: k.b) + (set k | k in triangles :: k.c)
  }

  /** `build_immutable_storage`: for every symbol of `uniqueValues` named by
      some triangle, the triangles that name it; no entry for the others. */
  method BuildImmutableStorage(triangles: map<TriangleKey, Legs>, uniqueValues: set<string>)
    returns (srt: SymbolRefTriangles)
    ensures forall v :: v in srt <==> v in uniqueValues && exists k :: k in triangles && Mentions(k, v)
    ensures forall v :: v in srt ==> srt[v] == Matching(triangles, v)
  {
    srt := map[];
    var todo := uniqueValues;
    while todo != {}
      invariant todo <= uniqueValues
      invariant forall v :: v in srt <==> v in uniqueValues - todo && exists k :: k in triangles && Mentions(k, v)
      invariant forall v :: v in srt ==> srt[v] == Matching(triangles, v)
      decreases todo
    {
      var value :| value in todo;
      var matching: map<TriangleKey, Legs> := map[];
      var keys := triangles.Keys;
      while keys != {}
        invariant keys <= triangles.Keys
        invariant forall k :: k in matching <==> k in triangles && k !in keys && Mentions(k, value)
        invariant forall k :: k in matching ==> matching[k] == triangles[k]
        decreases keys
      {
        var k :| k in keys;
        if Mentions(k, value) {
          matching := matching[k := triangles[k]];
        }
        keys := keys - {k};
      }
      assert matching == Matching(triangles, value);
      if matching != map[] {
        ghost var k :| k in matching;
        assert k in triangles && Mentions(k, value);
        srt := srt[value := matching];
      } else {
        assert forall k :: k in triangles ==> !Mentions(k, value) by {
          forall k | k in triangles ensures !Mentions(k, value) {
            assert k !in matching;
          }
        }
      }
      todo := todo - {value};
    }
  }

  /** A triangle that passed the rate, with its final amount and earn. */
  datatype Candidate = Candidate(key: TriangleKey, finalAmount: real, earn: real)

  /** Ordered by earn, highest first. */
  predicate SortedByEarn(s: seq<Candidate>) {
    forall i, j :: 0 <= i < j < |s| ==> s[i].earn >= s[j].earn
  }

  /** `c` put before the first entry that earns no more than it does. */
  function InsertByEarn(c: Candidate, s: seq<Candidate>): (r: seq<Candidate>)
    requires SortedByEarn(s)
    ensures SortedByEarn(r)
    ensures multiset(r) == multiset(s) + multiset{c}
    ensures forall x :: x in r ==> x == c || x in s
  {
    if s == [] || s[0].earn <= c.earn then
      assert forall x :: x in s ==> x.earn <= c.earn by {
        SortedHead(s);
      }
      ConsSorted(c, s);
      [c] + s
    else
      var rest := InsertByEarn(c, s[1..]);
      assert forall x :: x in rest ==> x.earn <= s[0].earn by {
        SortedHead(s);
      }
      ConsSorted(s[0], rest);
      assert multiset([s[0]] + rest) == multiset(s) + multiset{c} by {
        assert s == [s[0]] + s[1..];
      }
      assert forall x :: x in [s[0]] + rest ==> x == c || x in s by {
        assert forall x :: x in s[1..] ==> x in s;
      }
      [s[0]] + rest
  }

  /** In a sorted sequence the head earns at least as much as every entry. */
  lemma SortedHead(s: seq<Candidate>)
    requires SortedByEarn(s)
    ensures forall x :: x in s ==> x.earn <= s[0].earn
  {
    forall x | x in s ensures x.earn <= s[0].earn {
      var j :| 0 <= j < |s| && s[j] == x;
      if j > 0 {
        assert s[0].earn >= s[j].earn;
      }
    }
  }

  /** A head that earns at least as much as a sorted tail keeps it sorted. */
  lemma ConsSorted(h: Candidate, t: seq<Candidate>)
    requires SortedByEarn(t)
    requires forall x :: x in t ==> x.earn <= h.earn
    ensures SortedByEarn([h] + t)
  {
    var r := [h] + t;
    forall i, j | 0 <= i < j < |r| ensures r[i].earn >= r[j].earn {
      assert r[j] == t[j - 1];
      if i > 0 {
        assert r[i] == t[i - 1];
      } else {
        assert t[j - 1] in t;
      }
    }
  }

  /** `data_vec.sort_by(..)` by descending earn: the candidates, highest
      earn first. */
  function SortByEarn(s: seq<Candidate>): (r: seq<Candidate>)
    ensures SortedByEarn(r)
    ensures multiset(r) == multiset(s)
  {
    if s == [] then []
    else
      assert s == [s[0]] + s[1..];
      InsertByEarn(s[0], SortByEarn(s[1..]))
  }

  /** The head of the sorted candidates earns at least as much as any. */
  lemma SortedHeadIsBest(s: seq<Candidate>)
    requires s != []
    ensures SortByEarn(s) != [] && SortByEarn(s)[0] in s
    ensures forall c :: c in s ==> c.earn <= SortByEarn(s)[0].earn
  {
    var r := SortByEarn(s);
    assert multiset(r) == multiset(s);
    assert s[0] in multiset(r);
    assert r[0] in multiset(s);
    forall c | c in s ensures c.earn <= r[0].earn {
      assert c in multiset(r);
      var i :| 0 <= i < |r| && r[i] == c;
    }
  }

  /** What one evaluation did. */
  datatype Reaction =
    | Idle            // the symbol is in no triangle
    | Quiet           // no triangle reached the rate
    | Emit(best: Candidate) // the most profitable triangle, sent on

  /** The prices of the symbols the triangles name (`symbol_price_map`). */
  function SymbolPriceMap(triangles: map<TriangleKey, Legs>, prices: Prices): (r: Prices)
    ensures forall s :: s in r <==> s in prices && s in UniqueSymbols(triangles)
    ensures forall s :: s in r ==> r[s] == prices[s]
  {
    map s | s in UniqueSymbols(triangles) && s in prices :: prices[s]
  }

  /** The calculation of triangle `k` at the current prices. */
  function Evaluate(triangles: map<TriangleKey, Legs>, prices: Prices, k: TriangleKey): Result<(real, real), Failure>
    requires k in triangles
  {
    CalculateTriangle(SymbolPriceMap(triangles, prices), k, triangles[k])
  }

  /** Triangle `k` calculates and earns at least `rate`. */
  predicate Qualifies(triangles: map<TriangleKey, Legs>, prices: Prices, rate: real, k: TriangleKey) {
    k in triangles && Evaluate(triangles, prices, k).Ok? && Evaluate(triangles, prices, k).value.1 >= rate
  }

  /** `c` is the candidate of a qualifying triangle. */
  predicate IsCandidate(triangles: map<TriangleKey, Legs>, prices: Prices, rate: real, c: Candidate) {
    Qualifies(triangles, prices, rate, c.key)
    && Evaluate(triangles, prices, c.key) == Ok((c.finalAmount, c.earn))
  }

  /** The candidate triangle `k` makes when it calculates. */
  function CandidateOf(triangles: map<TriangleKey, Legs>, prices: Prices, k: TriangleKey): (c: Candidate)
    requires k in triangles && Evaluate(triangles, prices, k).Ok?
    ensures c.key == k && Evaluate(triangles, prices, k) == Ok((c.finalAmount, c.earn))
  {
    Candidate(k, Evaluate(triangles, prices, k).value.0, Evaluate(triangles, prices, k).value.1)
  }

  /** Every triangle outside `keys` calculated, and each that qualified
      has its candidate in `q`. */
  ghost predicate Processed(triangles: map<TriangleKey, Legs>, prices: Prices, rate: real, keys: set<TriangleKey>, q: seq<Candidate>) {
    (forall k :: k in triangles && k !in keys ==> Evaluate(triangles, prices, k).Ok?)
    && (forall k :: k !in keys && Qualifies(triangles, prices, rate, k) ==> CandidateOf(triangles, prices, k) in q)
  }

  /** `q` holds what `queue` held and candidates only. */
  ghost predicate Extends(triangles: map<TriangleKey, Legs>, prices: Prices, rate: real, queue: seq<Candidate>, q: seq<Candidate>) {
    (forall c :: c in q ==> c in queue || IsCandidate(triangles, prices, rate, c))
    && (forall c :: c in queue ==> c in q)
  }

  lemma ProcessedStep(triangles: map<TriangleKey, Legs>, prices: Prices, rate: real, queue: seq<Candidate>,
                      keys: set<TriangleKey>, q: seq<Candidate>, k: TriangleKey, q': seq<Candidate>)
    requires k in keys && keys <= triangles.Keys && Evaluate(triangles, prices, k).Ok?
    requires Processed(triangles, prices, rate, keys, q) && Extends(triangles, prices, rate, queue, q)
    requires q' == if Qualifies(triangles, prices, rate, k) then q + [CandidateOf(triangles, prices, k)] else q
    ensures Processed(triangles, prices, rate, keys - {k}, q') && Extends(triangles, prices, rate, queue, q')
  {
  }

  /** The evaluation loop of `react_to_update`: every triangle is
      calculated, in the unspecified order of the map, and those earning
      at least `rate` are appended to the queue; the first failing
      calculation aborts. */
  method EnqueueQualifying(triangles: map<TriangleKey, Legs>, prices: Prices, rate: real, queue: seq<Candidate>)
    returns (failure: Option<Failure>, queue': seq<Candidate>)
    ensures failure.Some? <==> exists k :: k in triangles && Evaluate(triangles, prices, k).Err?
    ensures forall c :: c in queue' ==> c in queue || IsCandidate(triangles, prices, rate, c)
    ensures forall c :: c in queue ==> c in queue'
    ensures failure.None? ==> forall k :: Qualifies(triangles, prices, rate, k) ==> CandidateOf(triangles, prices, k) in queue'
  {
    var spm := SymbolPriceMap(triangles, prices);
    queue' := queue;
    var keys := triangles.Keys;
    while keys != {}
      invariant keys <= triangles.Keys
      invariant Processed(triangles, prices, rate, keys, queue') && Extends(triangles, prices, rate, queue, queue')
      decreases keys
    {
      var k :| k in keys;
      ghost var q := queue';
      assert CalculateTriangle(spm, k, triangles[k]) == Evaluate(triangles, prices, k);
      match CalculateTriangle(spm, k, triangles[k])
      case Err(e) =>
        return Some(e), queue';
      case Ok((finalAmount, earn)) =>
        if earn >= rate {
          queue' := queue' + [Candidate(k, finalAmount, earn)];
        }
      ProcessedStep(triangles, prices, rate, queue, keys, q, k, queue');
      keys := keys - {k};
    }
    failure := None;
  }

  /** `while let Some(data) = EARN_QUEUE.pop() { data_vec.push(data) }`:
      the queue moved, in its order, into a vector. */
  method Drain(queue: seq<Candidate>) returns (dataVec: seq<Candidate>, queue': seq<Candidate>)
    ensures dataVec == queue && queue' == []
  {
    dataVec, queue' := [], queue;
    while queue' != []
      invariant dataVec + queue' == queue
      decreases |queue'|
    {
      dataVec := dataVec + [queue'[0]];
      queue' := queue'[1..];
    }
  }

  /** `react_to_update`: evaluate the triangles of `symbol`, queue those
      that earn at least `rate`, drain the queue, sort it by earn and emit
      the head. `queue` is the candidate queue on entry; the second result
      is the queue on return. A failing calculation aborts. */
  method ReactToUpdate(srt: SymbolRefTriangles, prices: Prices, symbol: string, rate: real, queue: seq<Candidate>)
    returns (r: Result<Reaction, Failure>, queue': seq<Candidate>)
    ensures symbol !in srt ==> r == Ok(Idle) && queue' == queue
    ensures symbol in srt ==> (r.Err? <==> exists k :: k in srt[symbol] && Evaluate(srt[symbol], prices, k).Err?)
    ensures symbol in srt && r.Ok? ==> queue' == []
    ensures symbol in srt && r.Ok? ==>
              (r.value.Emit? <==> queue != [] || exists k :: Qualifies(srt[symbol], prices, rate, k))
    ensures r.Ok? && r.value.Emit? ==>
              (symbol in srt
               && (r.value.best in queue || IsCandidate(srt[symbol], prices, rate, r.value.best))
               && (forall c :: c in queue ==> c.earn <= r.value.best.earn)
               && (forall k :: Qualifies(srt[symbol], prices, rate, k) ==>
                     Evaluate(srt[symbol], prices, k).value.1 <= r.value.best.earn))
  {
    if symbol !in srt {
      return Ok(Idle), queue;
    }
    var triangles := srt[symbol];
    var failure;
    failure, queue' := EnqueueQualifying(triangles, prices, rate, queue);
    if failure.Some? {
      return Err(failure.value), queue';
    }
    var dataVec;
    dataVec, queue' := Drain(queue');
    assert queue != [] ==> queue[0] in dataVec;
    forall k | Qualifies(triangles, prices, rate, k) ensures dataVec != [] {
      assert CandidateOf(triangles, prices, k) in dataVec;
    }
    var sorted := SortByEarn(dataVec);
    if sorted != [] {
      SortedHeadIsBest(dataVec);
      r := Ok(Emit(sorted[0]));
      forall k | Qualifies(triangles, prices, rate, k)
        ensures Evaluate(triangles, prices, k).value.1 <= sorted[0].earn
      {
        assert CandidateOf(triangles, prices, k) in dataVec;
      }
    } else {
      assert dataVec == [];
      r := Ok(Quiet);
    }
  }

  /** The distinct symbols of `ticks`. */
  function Seen(ticks: seq<string>): set<string> {
    set x | x in ticks
  }

  lemma {:induction false} SubsetCard(a: set<string>, b: set<string>)
    requires a <= b
    ensures |a| <= |b|
  {
    if a != {} {
      var x :| x in a;
      SubsetCard(a - {x}, b - {x});
    }
  }

  /** Seeing one more tick never lowers the number of distinct symbols. */
  lemma SeenGrows(ticks: seq<string>, symbol: string)
    ensures Seen(ticks + [symbol]) == Seen(ticks) + {symbol}
    ensures |Seen(ticks)| <= |Seen(ticks + [symbol])|
  {
    assert Seen(ticks + [symbol]) == Seen(ticks) + {symbol};
    SubsetCard(Seen(ticks), Seen(ticks + [symbol]));
  }

  /** What the observer did with one tick. */
  datatype TickOutcome =
    | Waiting                                 // still filling the storage
    | Switched                                // the storage just filled up
    | Evaluated(reaction: Result<Reaction, Failure>)

  /** The evaluator's shared state: the price storage, the required symbol
      count `COUNT`, the `REGULAR_MODE` flag, the reverse index `SRT`, the
      `RATE` and the candidate queue. `ticks` records the symbols of the
      ticks seen so far. */
  class Evaluator {
    const storage: DataStorage
    const count: nat
    const rate: real
    const srt: SymbolRefTriangles
    var regular: bool
    var earnQueue: seq<Candidate>
    ghost var ticks: seq<string>

    /** The storage holds one entry per distinct symbol seen, and regular
        mode is on exactly when some tick found the storage full. */
    ghost predicate Valid()
      reads this, storage
    {
      storage.entries.Keys == Seen(ticks)
      && (regular <==> ticks != [] && |Seen(ticks)| >= count)
    }

    /** `initialize_observers`: store the count and the rate, index the
        triangles by the symbols they name, start in filling mode. */
    constructor (count: nat, triangles: map<TriangleKey, Legs>, rate: real)
      ensures Valid() && ticks == [] && earnQueue == []
      ensures this.count == count && this.rate == rate && fresh(storage)
      ensures forall v :: v in srt <==> exists k :: k in triangles && Mentions(k, v)
      ensures forall v :: v in srt ==> srt[v] == Matching(triangles, v)
    {
      this.count := count;
      this.rate := rate;
      var uniqueSymbols := UniqueSymbols(triangles);
      var index := BuildImmutableStorage(triangles, uniqueSymbols);
      srt := index;
      storage := new DataStorage();
      regular := false;
      earnQueue := [];
      ticks := [];
    }

    /** The observer closure: store the tick, then either keep filling,
        switch to regular mode without evaluating, or evaluate. */
    method OnTick(symbol: string, price: string, volume: string) returns (outcome: TickOutcome)
      requires Valid()
      modifies this, storage
      ensures Valid() && ticks == old(ticks) + [symbol]
      ensures storage.entries == old(storage.entries)[symbol := (price, volume)]
      ensures outcome.Evaluated? <==> old(ticks) != [] && |Seen(old(ticks))| >= count
      ensures outcome == Switched <==> (old(ticks) == [] || |Seen(old(ticks))| < count) && |Seen(ticks)| >= count
      ensures outcome == Waiting <==> |Seen(ticks)| < count
      ensures old(regular) ==> regular
      ensures !outcome.Evaluated? ==> earnQueue == old(earnQueue)
      ensures outcome.Evaluated? && symbol !in srt ==> outcome.reaction == Ok(Idle)
      ensures outcome.Evaluated? && symbol in srt ==>
                (outcome.reaction.Err? <==> exists k :: k in srt[symbol] && Evaluate(srt[symbol], storage.entries, k).Err?)
      ensures outcome.Evaluated? && symbol in srt && outcome.reaction.Ok? ==>
                earnQueue == []
                && (outcome.reaction.value.Emit? <==>
                      old(earnQueue) != [] || exists k :: Qualifies(srt[symbol], storage.entries, rate, k))
      ensures outcome.Evaluated? && outcome.reaction.Ok? && outcome.reaction.value.Emit? ==>
                var best := outcome.reaction.value.best;
                symbol in srt
                && (best in old(earnQueue) || IsCandidate(srt[symbol], storage.entries, rate, best))
                && (forall c :: c in old(earnQueue) ==> c.earn <= best.earn)
                && (forall k :: Qualifies(srt[symbol], storage.entries, rate, k) ==>
                      Evaluate(srt[symbol], storage.entries, k).value.1 <= best.earn)
    {
      SeenGrows(ticks, symbol);
      storage.Insert(symbol, price, volume);
      ticks := ticks + [symbol];
      if !regular {
        var dsc := storage.Count();
        if dsc < count {
          return Waiting;
        }
        regular := true;
        return Switched;
      }
      var reaction, queue := ReactToUpdate(srt, storage.entries, symbol, rate, earnQueue);
      earnQueue := queue;
      outcome := Evaluated(reaction);
    }
  }
}
