/** The layer table a DXF drawing is read into: a ReadOnlyTree from layer
    names to layers, filled from the file's layer table and then extended
    on demand for every entity or block whose layer the table lacks. */
module DxfLayers {
  import opened Wrappers
  import opened KeyOrder
  import opened Collections
  import TreeFacts
  import TreeInsert

  /** A drawing color, as the 32-bit value the reader converts a DXF color
      index into. */
  datatype Color = Color(argb: int)

  /** A layer: its name and its color (null when the layer was created for
      an entity rather than read from the layer table). The entities a layer
      holds are not part of this model. */
  datatype Layer = Layer(name: string, color: Option<Color>)

  /** Entities without a layer name go to the layer named "0". */
  const DefaultLayerName: string := "0"

  function LayerNameOrDefault(layerName: Option<string>): string {
    layerName.GetOr(DefaultLayerName)
  }

  /** Every layer in the table is stored under its own name. */
  ghost predicate NamesAgree(layers: ReadOnlyTree<Layer>) {
    forall k :: TryFind(layers, k).Some? ==> TryFind(layers, k).value.name == k
  }

  /** The stored layer under `name` when there is one; otherwise a new layer
      with that name and no color, inserted into the table. The table that
      comes back is the one to use from then on. */
  function GetOrCreateLayer(layers: ReadOnlyTree<Layer>, layerName: Option<string>)
    : (r: Result<(Layer, ReadOnlyTree<Layer>)>)
  {
    var name := LayerNameOrDefault(layerName);
    if KeyExists(layers, name) then
      Success((TryFind(layers, name).value, layers))
    else
      var layer := Layer(name, None);
      var layers' :- Insert(layers, layer.name, layer);
      Success((layer, layers'))
  }

  /** GetOrCreateLayer on a valid table always succeeds, returns a table
      that is still valid, in which the name maps to the returned layer; no
      other name's lookup changes and the key set grows by exactly that name.
      A present name leaves the table as it was; an absent one gets a fresh
      uncolored layer of that name. */
  lemma GetOrCreateLayerCorrect(layers: ReadOnlyTree<Layer>, layerName: Option<string>)
    requires Valid(layers.root)
    ensures var name := LayerNameOrDefault(layerName);
      var r := GetOrCreateLayer(layers, layerName);
      r.Success? && Valid(r.value.1.root) &&
      TryFind(r.value.1, name) == Some(r.value.0) &&
      (forall k :: k != name ==> TryFind(r.value.1, k) == TryFind(layers, k)) &&
      Keys(r.value.1.root) == Keys(layers.root) + {name} &&
      (KeyExists(layers, name) ==> r.value.1 == layers) &&
      (!KeyExists(layers, name) ==> r.value.0 == Layer(name, None) &&
                                    Count(r.value.1) == Count(layers) + 1)
  {
    var name := LayerNameOrDefault(layerName);
    if KeyExists(layers, name) {
      TreeFacts.FindInOrdered(layers.root, name);
    } else {
      TreeInsert.InsertCorrect(layers, name, Layer(name, None));
    }
  }

  /** On a table whose layers sit under their own names, the returned layer
      carries the requested name (or "0"), and the new table keeps the
      invariant. */
  lemma GetOrCreateLayerKeepsNames(layers: ReadOnlyTree<Layer>, layerName: Option<string>)
    requires Valid(layers.root) && NamesAgree(layers)
    ensures var r := GetOrCreateLayer(layers, layerName);
      r.Success? && r.value.0.name == LayerNameOrDefault(layerName) && NamesAgree(r.value.1)
  {
    var name := LayerNameOrDefault(layerName);
    GetOrCreateLayerCorrect(layers, layerName);
    var r := GetOrCreateLayer(layers, layerName).value;
    assert TryFind(r.1, name) == Some(r.0);
    forall k | TryFind(r.1, k).Some?
      ensures TryFind(r.1, k).value.name == k
    {
      if k != name {
        assert TryFind(r.1, k) == TryFind(layers, k);
      }
    }
  }

  /** A second request for the same layer finds the one the first request
      returned and leaves the table alone. */
  lemma GetOrCreateLayerIdempotent(layers: ReadOnlyTree<Layer>, layerName: Option<string>)
    requires Valid(layers.root)
    ensures var r := GetOrCreateLayer(layers, layerName);
      r.Success? && GetOrCreateLayer(r.value.1, layerName) == r
  {
    GetOrCreateLayerCorrect(layers, layerName);
  }

  /** The file's layer table, inserted one by one under their names, each
      as read (a later layer of the same name replaces an earlier one). */
  function LoadLayers(layers: ReadOnlyTree<Layer>, table: seq<Layer>): (r: Result<ReadOnlyTree<Layer>>)
    decreases |table|
  {
    if |table| == 0 then Success(layers)
    else
      var layers' :- Insert(layers, table[0].name, table[0]);
      LoadLayers(layers', table[1..])
  }

  /** Loading the layer table into a valid table whose layers sit under
      their names succeeds, stays valid, keeps the names in agreement, and
      ends with exactly the table's names added. */
  lemma {:induction false} LoadLayersCorrect(layers: ReadOnlyTree<Layer>, table: seq<Layer>)
    requires Valid(layers.root) && NamesAgree(layers)
    ensures var r := LoadLayers(layers, table);
      r.Success? && Valid(r.value.root) && NamesAgree(r.value) &&
      Keys(r.value.root) == Keys(layers.root) + set i | 0 <= i < |table| :: table[i].name
    decreases |table|
  {
    if |table| > 0 {
      var layer := table[0];
      TreeInsert.InsertCorrect(layers, layer.name, layer);
      var layers' := Insert(layers, layer.name, layer).value;
      InsertKeepsNamesAgree(layers, layer);
      LoadLayersCorrect(layers', table[1..]);
      var rest := set i | 0 <= i < |table[1..]| :: table[1..][i].name;
      var all := set i | 0 <= i < |table| :: table[i].name;
      assert all == {layer.name} + rest by {
        forall x | x in all ensures x in {layer.name} + rest {
          var i :| 0 <= i < |table| && table[i].name == x;
          if i > 0 {
            assert table[1..][i - 1].name == x;
          }
        }
        forall x | x in rest ensures x in all {
          var i :| 0 <= i < |table[1..]| && table[1..][i].name == x;
          assert table[i + 1].name == x;
        }
      }
    }
  }

  /** Storing a layer under its own name keeps every name in agreement. */
  lemma InsertKeepsNamesAgree(layers: ReadOnlyTree<Layer>, layer: Layer)
    requires Valid(layers.root) && NamesAgree(layers)
    ensures Insert(layers, layer.name, layer).Success?
    ensures Valid(Insert(layers, layer.name, layer).value.root)
    ensures NamesAgree(Insert(layers, layer.name, layer).value)
  {
    TreeInsert.InsertCorrect(layers, layer.name, layer);
    var layers' := Insert(layers, layer.name, layer).value;
    forall k | TryFind(layers', k).Some?
      ensures TryFind(layers', k).value.name == k
    {
      if k != layer.name {
        assert TryFind(layers', k) == TryFind(layers, k);
      }
    }
  }

  /** Entry `i` is the last layer of its name in the table. */
  predicate LastOfName(table: seq<Layer>, i: int) {
    0 <= i < |table| && forall j :: i < j < |table| ==> table[j].name != table[i].name
  }

  /** Once the file's layers are loaded, every later request for one of
      them by name returns the last layer of that name as read, and the
      table does not change. */
  lemma LoadedLayerIsFound(layers: ReadOnlyTree<Layer>, table: seq<Layer>, i: int)
    requires Valid(layers.root) && NamesAgree(layers) && LastOfName(table, i)
    ensures var r := LoadLayers(layers, table);
      r.Success? && GetOrCreateLayer(r.value, Some(table[i].name)) == Success((table[i], r.value))
  {
    LoadLayersCorrect(layers, table);
    LoadLastWins(layers, table, i);
  }

  /** The last layer of each name in the table is what that name maps to
      after loading. */
  lemma {:induction false} LoadLastWins(layers: ReadOnlyTree<Layer>, table: seq<Layer>, i: int)
    requires Valid(layers.root) && NamesAgree(layers) && LastOfName(table, i)
    ensures var r := LoadLayers(layers, table);
      r.Success? && TryFind(r.value, table[i].name) == Some(table[i])
    decreases |table|
  {
    var layer := table[0];
    TreeInsert.InsertCorrect(layers, layer.name, layer);
    InsertKeepsNamesAgree(layers, layer);
    var layers' := Insert(layers, layer.name, layer).value;
    if i == 0 {
      forall j | 0 <= j < |table[1..]| ensures table[1..][j].name != layer.name {
        assert table[1..][j] == table[j + 1];
      }
      LoadSkipsName(layers', table[1..], layer.name);
    } else {
      assert LastOfName(table[1..], i - 1) by {
        forall j | i - 1 < j < |table[1..]| ensures table[1..][j].name != table[1..][i - 1].name {
          assert table[1..][j] == table[j + 1];
        }
      }
      LoadLastWins(layers', table[1..], i - 1);
      assert table[1..][i - 1] == table[i];
    }
  }

  /** Loading layers none of which carries `name` leaves its lookup alone. */
  lemma {:induction false} LoadSkipsName(layers: ReadOnlyTree<Layer>, table: seq<Layer>, name: string)
    requires Valid(layers.root) && NamesAgree(layers)
    requires forall j :: 0 <= j < |table| ==> table[j].name != name
    ensures var r := LoadLayers(layers, table);
      r.Success? && TryFind(r.value, name) == TryFind(layers, name)
    decreases |table|
  {
    if |table| > 0 {
      var layer := table[0];
      TreeInsert.InsertCorrect(layers, layer.name, layer);
      InsertKeepsNamesAgree(layers, layer);
      var layers' := Insert(layers, layer.name, layer).value;
      assert forall j :: 0 <= j < |table[1..]| ==> table[1..][j].name != name by {
        forall j | 0 <= j < |table[1..]| ensures table[1..][j].name != name {
          assert table[1..][j] == table[j + 1];
        }
      }
      LoadSkipsName(layers', table[1..], name);
    }
  }
}
