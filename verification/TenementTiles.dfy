/**
 Cutting a bounding box into tiles the tenement service accepts, over real
 numbers: the tiles partition the box, and none exceeds 0.64 square degrees.
 */
module TenementTiles {
  import opened Numbers

  const TILE_DEG := 0.8

  datatype Bbox = Bbox(minLng: real, minLat: real, maxLng: real, maxLat: real) {
    // A box owns its lower edges.
    predicate Contains(lng: real, lat: real) {
      minLng <= lng < maxLng && minLat <= lat < maxLat
    }

    function Area(): real {
      (maxLng - minLng) * (maxLat - minLat)
    }
  }

  function Tile(box: Bbox, lng: real, lat: real): Bbox {
    Bbox(lng, lat, Min(lng + TILE_DEG, box.maxLng), Min(lat + TILE_DEG, box.maxLat))
  }

  // The tiles of one column, from a latitude up.
  function Column(box: Bbox, lng: real, lat: real): seq<Bbox>
    decreases (box.maxLat - lat) * 1.25
  {
    if lat < box.maxLat then [Tile(box, lng, lat)] + Column(box, lng, lat + TILE_DEG) else []
  }

  // The tiles of all columns from a longitude on.
  function Columns(box: Bbox, lng: real): seq<Bbox>
    decreases (box.maxLng - lng) * 1.25
  {
    if lng < box.maxLng then Column(box, lng, box.minLat) + Columns(box, lng + TILE_DEG) else []
  }

  method TileBbox(box: Bbox) returns (tiles: seq<Bbox>)
    ensures tiles == Columns(box, box.minLng)
  {
    tiles := [];
    var lng := box.minLng;
    while lng < box.maxLng
      invariant tiles + Columns(box, lng) == Columns(box, box.minLng)
      decreases (box.maxLng - lng) * 1.25
    {
      ghost var before := tiles;
      var lat := box.minLat;
      while lat < box.maxLat
        invariant tiles + Column(box, lng, lat) == before + Column(box, lng, box.minLat)
        decreases (box.maxLat - lat) * 1.25
      {
        var tile := Tile(box, lng, lat);
        Assoc(tiles, [tile], Column(box, lng, lat + TILE_DEG));
        tiles := tiles + [tile];
        lat := lat + TILE_DEG;
      }
      assert tiles == before + Column(box, lng, box.minLat) by { assert tiles + [] == tiles; }
      Assoc(before, Column(box, lng, box.minLat), Columns(box, lng + TILE_DEG));
      lng := lng + TILE_DEG;
    }
    assert tiles + [] == tiles;
  }

  lemma Assoc(a: seq<Bbox>, b: seq<Bbox>, c: seq<Bbox>)
    ensures a + b + c == a + (b + c)
  {
  }

  // How many of the tiles hold the point.
  function Holding(tiles: seq<Bbox>, lng: real, lat: real): nat {
    if tiles == [] then 0
    else (if tiles[0].Contains(lng, lat) then 1 else 0) + Holding(tiles[1..], lng, lat)
  }

  lemma {:induction false} HoldingConcat(a: seq<Bbox>, b: seq<Bbox>, lng: real, lat: real)
    ensures Holding(a + b, lng, lat) == Holding(a, lng, lat) + Holding(b, lng, lat)
  {
    if a == [] {
      assert a + b == b;
    } else {
      assert (a + b)[1..] == a[1..] + b;
      HoldingConcat(a[1..], b, lng, lat);
    }
  }

  lemma {:induction false} ColumnHolds(box: Bbox, x: real, y: real, lng: real, lat: real)
    ensures Holding(Column(box, x, y), lng, lat) ==
            if x <= lng < Min(x + TILE_DEG, box.maxLng) && y <= lat < box.maxLat then 1 else 0
    decreases (box.maxLat - y) * 1.25
  {
    if y < box.maxLat {
      ColumnHolds(box, x, y + TILE_DEG, lng, lat);
    }
  }

  lemma {:induction false} ColumnsHold(box: Bbox, x: real, lng: real, lat: real)
    ensures Holding(Columns(box, x), lng, lat) ==
            if x <= lng < box.maxLng && box.minLat <= lat < box.maxLat then 1 else 0
    decreases (box.maxLng - x) * 1.25
  {
    if x < box.maxLng {
      ColumnsHold(box, x + TILE_DEG, lng, lat);
      ColumnHolds(box, x, box.minLat, lng, lat);
      HoldingConcat(Column(box, x, box.minLat), Columns(box, x + TILE_DEG), lng, lat);
    }
  }

  /** Every point of the box lies in exactly one tile, and no other point in any. */
  lemma TilesPartition(box: Bbox, lng: real, lat: real)
    ensures Holding(Columns(box, box.minLng), lng, lat) == if box.Contains(lng, lat) then 1 else 0
  {
    ColumnsHold(box, box.minLng, lng, lat);
  }

  predicate Acceptable(tile: Bbox) {
    tile.minLng < tile.maxLng && tile.minLat < tile.maxLat && tile.Area() <= 0.64
  }

  lemma SmallTile(box: Bbox, lng: real, lat: real)
    requires lng < box.maxLng && lat < box.maxLat
    ensures Acceptable(Tile(box, lng, lat))
  {
    var t := Tile(box, lng, lat);
    var w, h := t.maxLng - t.minLng, t.maxLat - t.minLat;
    assert 0.0 < w <= TILE_DEG && 0.0 < h <= TILE_DEG;
    assert t.Area() == w * h <= TILE_DEG * h <= 0.64;
  }

  lemma {:induction false} ColumnAcceptable(box: Bbox, lng: real, lat: real)
    requires lng < box.maxLng
    ensures forall t <- Column(box, lng, lat) :: Acceptable(t)
    decreases (box.maxLat - lat) * 1.25
  {
    if lat < box.maxLat {
      SmallTile(box, lng, lat);
      ColumnAcceptable(box, lng, lat + TILE_DEG);
    }
  }

  /** No tile is empty or larger than the service's limit allows. */
  lemma {:induction false} TilesAcceptable(box: Bbox, lng: real)
    ensures forall t <- Columns(box, lng) :: Acceptable(t)
    decreases (box.maxLng - lng) * 1.25
  {
    if lng < box.maxLng {
      ColumnAcceptable(box, lng, box.minLat);
      TilesAcceptable(box, lng + TILE_DEG);
    }
  }
}
