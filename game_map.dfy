/**
 * scripts/game/Map.py: a tile map made of layers. Only the list of layers
 * and the dimensions are modelled; the tiles of a layer and the drawing
 * surface are not.
 */
module GameMaps {
  import opened Basic

  /** A `MapLayer`, reduced to the map dimensions it was created with. */
  datatype MapLayer = MapLayer(mapDim: (int, int))

  /** The list without the element at `i`, the rest in order (`del layers[i]`). */
  function Without<T>(s: seq<T>, i: nat): (r: seq<T>)
    requires i < |s|
    ensures |r| == |s| - 1
    ensures forall j :: 0 <= j < i ==> r[j] == s[j]
    ensures forall j :: i <= j < |r| ==> r[j] == s[j + 1]
  {
    s[..i] + s[i + 1..]
  }

  /** Removing the element just inserted at `i` gives the list back. */
  lemma WithoutInsert<T>(s: seq<T>, i: nat, x: T)
    requires i <= |s|
    ensures Without(s[..i] + [x] + s[i..], i) == s
  {
    var t := s[..i] + [x] + s[i..];
    assert |Without(t, i)| == |s|;
    assert forall j :: 0 <= j < |s| ==> Without(t, i)[j] == s[j];
  }

  /**
   * The layer-index check: `Logger.raise_index_error` is not part of this
   * model; it is taken to accept exactly the indices `0 <= i < len`.
   */
  predicate ValidIndex<T>(s: seq<T>, i: int) {
    0 <= i < |s|
  }

  class Map {
    var layers: seq<MapLayer>
    const mapDim: (int, int)
    const tileDim: (int, int)
    const mapSurfDim: (int, int)
    const transparent: bool

    /** Every layer was created with the map's own dimensions. */
    ghost predicate Valid()
      reads this
    {
      forall i :: 0 <= i < |layers| ==> layers[i].mapDim == mapDim
    }

    /** `Map(map_dim, tile_dim, transparent)`: no layers; the surface measures tiles times tile size. */
    constructor (mapDim: (int, int), tileDim: (int, int), transparent: bool)
      ensures Valid()
      ensures layers == []
      ensures this.mapDim == mapDim && this.tileDim == tileDim && this.transparent == transparent
      ensures mapSurfDim == (mapDim.0 * tileDim.0, mapDim.1 * tileDim.1)
    {
      layers := [];
      this.mapDim := mapDim;
      this.tileDim := tileDim;
      this.mapSurfDim := (mapDim.0 * tileDim.0, mapDim.1 * tileDim.1);
      this.transparent := transparent;
    }

    /** `add_map_layer()`: a new layer of the map's dimensions at the end; earlier layers unchanged. */
    method AddMapLayer()
      requires Valid()
      modifies this`layers
      ensures Valid()
      ensures layers == old(layers) + [MapLayer(mapDim)]
    {
      layers := layers + [MapLayer(mapDim)];
    }

    /** `remove_map_layer(i)`: a valid index removes exactly that layer; any other index changes nothing. */
    method RemoveMapLayer(i: int)
      requires Valid()
      modifies this`layers
      ensures Valid()
      ensures ValidIndex(old(layers), i) ==> layers == Without(old(layers), i)
      ensures !ValidIndex(old(layers), i) ==> layers == old(layers)
    {
      if ValidIndex(layers, i) {
        layers := layers[..i] + layers[i + 1..];
      }
    }

    /** `get_map_layer(i)`: the layer at a valid index, `None` otherwise. */
    function GetMapLayer(i: int): (r: Option<MapLayer>)
      reads this
      ensures r.Some? <==> ValidIndex(layers, i)
      ensures r.Some? ==> r.value == layers[i]
    {
      if ValidIndex(layers, i) then Some(layers[i]) else None
    }

    /** `get_map_layer_list_len()`. */
    function GetMapLayerListLen(): (r: nat)
      reads this
      ensures r == |layers|
    {
      |layers|
    }
  }
}
