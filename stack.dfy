/** The per-symbol data map (src/stack/mod.rs). */
module Stack {
  import opened Wrappers
  import opened Triangle

  /** The (price, volume) slot of a symbol. */
  type SymbolData = Option<(string, string)>

  /** The placeholder volume text every entry gets. */
  const SOME_DATA: string := "some_data"

  /** `create_symbol_data_map`: one entry per symbol of `pairs`, created
      empty and then filled with `(symbol, "some_data")`. The triangles that
      name the symbol are collected and thrown away, so the result does
      not depend on `triangles`. */
  method CreateSymbolDataMap(pairs: seq<string>, triangles: map<TriangleKey, seq<TriangleElement>>)
    returns (m: map<string, SymbolData>)
    ensures m.Keys == set s | s in pairs
    ensures forall s :: s in m ==> m[s] == Some((s, SOME_DATA))
  {
    m := map[];
    for i := 0 to |pairs|
      invariant m.Keys == set s | s in pairs[..i]
      invariant forall s :: s in m ==> m[s] == Some((s, SOME_DATA))
    {
      var symbol := pairs[i];
      m := m[symbol := None];
      m := m[symbol := Some((symbol, SOME_DATA))];
      assert pairs[..i + 1] == pairs[..i] + [symbol];
    }
    assert pairs[..|pairs|] == pairs;
  }
}
