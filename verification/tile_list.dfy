/** The tile list of `QSDragAdapter`: the tiles currently in Quick Settings,
    the default tiles not in use (`availableTiles`), and the persisted
    `sysui_qs_tiles` setting, a comma-separated list of tile keys. */
module TileList {
  import opened Wrappers
  import opened Seqs
  import opened Strings
  import opened TileParser

  /** A `QSTile` object. `ref` stands for its identity: `QSTile` is not a data
      class, so tiles compare by reference and two tiles built from the same
      key are different tiles. The title and icon are the parse of the key. */
  datatype Tile = Tile(ref: nat, key: string, title: string, icon: Icon)

  /** What the adapter reads from the platform besides its own setting: the
      `quick_settings_tiles_default` string of SystemUI (absent when the
      resource lookup throws) and the package manager. */
  datatype Env = Env(defaultResource: Option<string>, pm: PackageManager)

  /** The adapter's state: `tiles`, `availableTiles`, the value of the
      `sysui_qs_tiles` setting (`None` for a setting never written), and the
      first reference not yet handed to a tile. */
  datatype Adapter = Adapter(tiles: seq<Tile>, available: seq<Tile>, stored: Option<string>, nextRef: nat)

  /** The state an operation leaves: `Crashed` when a tile constructor threw,
      with the changes made before the throw. */
  datatype Outcome = Done(state: Adapter) | Crashed(state: Adapter, error: ParseError)

  const Separator: char := ','

  function Keys(ts: seq<Tile>): (ks: seq<string>)
    ensures |ks| == |ts|
    ensures forall i :: 0 <= i < |ts| ==> ks[i] == ts[i].key
    decreases |ts|
  {
    if |ts| == 0 then [] else [ts[0].key] + Keys(ts[1..])
  }

  /** `QSTile(key, context)`: parses the key; throws where the parser does. */
  function NewTile(key: string, ref: nat, pm: PackageManager): (r: Result<Tile, ParseError>)
    ensures r.Success? <==> Parses(key)
    ensures r.Success? ==> && r.value.ref == ref && r.value.key == key
                           && ParseKey(key, pm) == Success(ParsedTile(r.value.title, r.value.icon))
  {
    match ParseKey(key, pm)
    case Failure(e) => Failure(e)
    case Success(p) => Success(Tile(ref, key, p.title, p.icon))
  }

  /** The tile is what `QSTile(t.key)` builds: its title and icon are the
      parse of its key. */
  predicate ShowsKey(t: Tile, pm: PackageManager) {
    NewTile(t.key, t.ref, pm) == Success(t)
  }

  /** Every key of the list parses. */
  predicate AllParse(keys: seq<string>) {
    forall i :: 0 <= i < |keys| ==> Parses(keys[i])
  }

  /** `keys.map { QSTile(it, context) }`: one new tile per key, in order, with
      fresh consecutive references; the first key that does not parse aborts
      the whole map. */
  function NewTiles(keys: seq<string>, ref: nat, pm: PackageManager): (r: Result<seq<Tile>, ParseError>)
    ensures r.Success? <==> AllParse(keys)
    ensures r.Success? ==> && |r.value| == |keys| && Keys(r.value) == keys
                           && forall i :: 0 <= i < |keys| ==> r.value[i].ref == ref + i
    ensures r.Success? ==> BuiltFrom(r.value, keys, ref, Constructor(pm))
    decreases |keys|
  {
    if |keys| == 0 then Success([])
    else
      match NewTile(keys[0], ref, pm)
      case Failure(e) => Failure(e)
      case Success(t) =>
        match NewTiles(keys[1..], ref + 1, pm)
        case Failure(e) => Failure(e)
        case Success(ts) =>
          NewTilesStep(keys, ref, Constructor(pm), t, ts);
          Success([t] + ts)
  }

  /** Putting the tile of the first key in front of the tiles of the others. */
  lemma NewTilesStep(keys: seq<string>, ref: nat, build: (string, nat) -> Result<Tile, ParseError>,
                     t: Tile, ts: seq<Tile>)
    requires |keys| > 0 && t.key == keys[0] && t.ref == ref
    requires build(keys[0], ref) == Success(t)
    requires Keys(ts) == keys[1..] && BuiltFrom(ts, keys[1..], ref + 1, build)
    requires forall i :: 0 <= i < |ts| ==> ts[i].ref == ref + 1 + i
    ensures Keys([t] + ts) == keys && BuiltFrom([t] + ts, keys, ref, build)
    ensures forall i :: 0 <= i < |keys| ==> ([t] + ts)[i].ref == ref + i
  {
    assert ([t] + ts)[1..] == ts;
    assert forall i :: 1 <= i < |keys| ==> keys[i] == keys[1..][i - 1];
  }

  /** `QSTile(key, context)` as a function of the key and the reference. */
  function Constructor(pm: PackageManager): (string, nat) -> Result<Tile, ParseError> {
    (k: string, ref: nat) => NewTile(k, ref, pm)
  }

  /** `tiles` is what mapping `build` over `keys` gives when references are
      handed out from `ref` on: tile by tile, the tile the key constructs. */
  predicate BuiltFrom(tiles: seq<Tile>, keys: seq<string>, ref: nat, build: (string, nat) -> Result<Tile, ParseError>)
    decreases |keys|
  {
    && |tiles| == |keys|
    && (|keys| > 0 ==> && build(keys[0], ref) == Success(tiles[0])
                       && BuiltFrom(tiles[1..], keys[1..], ref + 1, build))
  }

  lemma {:induction false} BuiltFromAt(tiles: seq<Tile>, keys: seq<string>, ref: nat,
                                       build: (string, nat) -> Result<Tile, ParseError>, i: nat)
    requires BuiltFrom(tiles, keys, ref, build) && i < |keys|
    ensures build(keys[i], ref + i) == Success(tiles[i])
    decreases i
  {
    if i > 0 {
      BuiltFromAt(tiles[1..], keys[1..], ref + 1, build, i - 1);
      assert keys[1..][i - 1] == keys[i] && tiles[1..][i - 1] == tiles[i];
    }
  }

  /** Each tile of `keys.map { QSTile(it, context) }` is the tile its key
      constructs with its own reference. */
  lemma NewTilesEach(keys: seq<string>, ref: nat, pm: PackageManager)
    ensures var r := NewTiles(keys, ref, pm);
            r.Success? ==> forall i :: 0 <= i < |keys| ==> NewTile(keys[i], ref + i, pm) == Success(r.value[i])
  {
    var r := NewTiles(keys, ref, pm);
    if r.Success? {
      BuiltEach(r.value, keys, ref, pm);
    }
  }

  lemma BuiltEach(tiles: seq<Tile>, keys: seq<string>, ref: nat, pm: PackageManager)
    requires BuiltFrom(tiles, keys, ref, Constructor(pm))
    ensures forall i :: 0 <= i < |keys| ==> NewTile(keys[i], ref + i, pm) == Success(tiles[i])
  {
    forall i | 0 <= i < |keys|
      ensures NewTile(keys[i], ref + i, pm) == Success(tiles[i])
    {
      BuiltFromAt(tiles, keys, ref, Constructor(pm), i);
      ConstructorApply(pm, keys[i], ref + i);
    }
  }

  lemma ConstructorApply(pm: PackageManager, k: string, ref: nat)
    ensures Constructor(pm)(k, ref) == NewTile(k, ref, pm)
  {
  }

  /** Every tile of a built list shows its own key. */
  lemma BuiltShowsKeys(tiles: seq<Tile>, keys: seq<string>, ref: nat, pm: PackageManager)
    requires BuiltFrom(tiles, keys, ref, Constructor(pm))
    ensures forall i :: 0 <= i < |tiles| ==> ShowsKey(tiles[i], pm)
  {
    forall i | 0 <= i < |tiles|
      ensures ShowsKey(tiles[i], pm)
    {
      BuiltFromAt(tiles, keys, ref, Constructor(pm), i);
    }
  }

  /** `defaultTileOrder`: the SystemUI resource, or `""` when it cannot be read. */
  function DefaultTileOrder(env: Env): (r: string)
    ensures env.defaultResource.Some? ==> r == env.defaultResource.value
    ensures env.defaultResource.None? ==> r == ""
  {
    env.defaultResource.GetOr("")
  }

  /** The keys of the default tiles, in default order. */
  function DefaultKeys(env: Env): seq<string> {
    Split(DefaultTileOrder(env), Separator)
  }

  /** Every default key parses, so building the default tiles cannot throw. */
  predicate DefaultsParse(env: Env) {
    AllParse(DefaultKeys(env))
  }

  /** Whether a key is not used by any of `tiles`. */
  function KeyAbsent(tiles: seq<Tile>): string -> bool {
    (k: string) => k !in Keys(tiles)
  }

  /** Whether a tile's key is not used by any of `tiles`. */
  function TileAbsent(tiles: seq<Tile>): Tile -> bool {
    (t: Tile) => t.key !in Keys(tiles)
  }

  /** The invariant `refreshAvailableTiles` establishes: the available keys
      are the default keys not used by a current tile, in default order. */
  ghost predicate AvailableIsComplement(a: Adapter, env: Env) {
    Keys(a.available) == Filter(DefaultKeys(env), KeyAbsent(a.tiles))
  }

  lemma {:induction false} KeysOfFilter(ts: seq<Tile>, tiles: seq<Tile>)
    ensures Keys(Filter(ts, TileAbsent(tiles))) == Filter(Keys(ts), KeyAbsent(tiles))
    decreases |ts|
  {
    if |ts| > 0 {
      KeysOfFilter(ts[1..], tiles);
      assert Keys(ts)[1..] == Keys(ts[1..]);
    }
  }

  /** No available tile shares a key with a current tile. */
  lemma AvailableDisjoint(a: Adapter, env: Env)
    requires AvailableIsComplement(a, env)
    ensures forall i :: 0 <= i < |a.available| ==> a.available[i].key !in Keys(a.tiles)
  {
  }

  /** `refreshAvailableTiles`: clears `availableTiles`, builds a fresh set of
      default tiles and keeps those whose key no current tile has. */
  function Refresh(a: Adapter, env: Env): (r: Outcome)
    ensures r.Done? <==> DefaultsParse(env)
    ensures r.state.tiles == a.tiles && r.state.stored == a.stored
    ensures r.Crashed? ==> r.state.available == []
    ensures r.Done? ==> AvailableIsComplement(r.state, env)
    ensures r.Done? ==> forall i :: 0 <= i < |r.state.available| ==>
                          a.nextRef <= r.state.available[i].ref < r.state.nextRef
    ensures r.Done? ==> forall i :: 0 <= i < |r.state.available| ==> ShowsKey(r.state.available[i], env.pm)
  {
    match NewTiles(DefaultKeys(env), a.nextRef, env.pm)
    case Failure(e) => Crashed(a.(available := []), e)
    case Success(defaults) =>
      KeysOfFilter(defaults, a.tiles);
      BuiltShowsKeys(defaults, DefaultKeys(env), a.nextRef, env.pm);
      FreshDefaults(defaults, a.tiles, a.nextRef, env.pm);
      Done(a.(available := Filter(defaults, TileAbsent(a.tiles)), nextRef := a.nextRef + |defaults|))
  }

  lemma FreshDefaults(defaults: seq<Tile>, tiles: seq<Tile>, ref: nat, pm: PackageManager)
    requires forall i :: 0 <= i < |defaults| ==> defaults[i].ref == ref + i
    requires forall i :: 0 <= i < |defaults| ==> ShowsKey(defaults[i], pm)
    ensures var available := Filter(defaults, TileAbsent(tiles));
            forall i :: 0 <= i < |available| ==> ref <= available[i].ref < ref + |defaults|
    ensures var available := Filter(defaults, TileAbsent(tiles));
            forall i :: 0 <= i < |available| ==> ShowsKey(available[i], pm)
  {
  }

  /** The text the tile list is read from: the setting, unless it is missing
      or empty, in which case the default order. */
  function TileSource(stored: Option<string>, env: Env): (r: string)
    ensures stored.Some? && stored.value != "" ==> r == stored.value
    ensures stored.None? || stored == Some("") ==> r == DefaultTileOrder(env)
  {
    match stored
    case Some(s) => if |s| == 0 then DefaultTileOrder(env) else s
    case None => DefaultTileOrder(env)
  }

  /** `parseTileList`: replaces the tiles by the tiles of the stored list (of
      the default order when nothing is stored) and refreshes the available
      tiles. It does not write the setting. A key that does not parse throws
      before the list is touched. */
  function ParseTileList(a: Adapter, env: Env): (r: Outcome)
    ensures r.state.stored == a.stored
    ensures r.Done? <==> AllParse(Split(TileSource(a.stored, env), Separator)) && DefaultsParse(env)
    ensures r.Done? ==> AvailableIsComplement(r.state, env)
    ensures r.Done? && (a.stored == None || a.stored == Some("")) ==> Keys(r.state.tiles) == DefaultKeys(env)
    ensures r.Done? && a.stored.Some? && a.stored.value != "" ==> Keys(r.state.tiles) == Split(a.stored.value, Separator)
    ensures r.Crashed? && !AllParse(Split(TileSource(a.stored, env), Separator)) ==> r.state == a
    ensures r.Crashed? && AllParse(Split(TileSource(a.stored, env), Separator)) ==>
              Keys(r.state.tiles) == Split(TileSource(a.stored, env), Separator) && r.state.available == []
    ensures r.Done? || AllParse(Split(TileSource(a.stored, env), Separator)) ==>
              forall i :: 0 <= i < |r.state.tiles| ==> ShowsKey(r.state.tiles[i], env.pm)
    ensures r.Done? ==> forall i :: 0 <= i < |r.state.available| ==> ShowsKey(r.state.available[i], env.pm)
  {
    var keys := Split(TileSource(a.stored, env), Separator);
    match NewTiles(keys, a.nextRef, env.pm)
    case Failure(e) => Crashed(a, e)
    case Success(ts) =>
      BuiltShowsKeys(ts, keys, a.nextRef, env.pm);
      var r := Refresh(a.(tiles := ts, nextRef := a.nextRef + |ts|), env);
      assert Keys(r.state.tiles) == keys;
      r
  }

  /** The adapter's constructor: an empty adapter that parses the tile list. */
  function NewAdapter(stored: Option<string>, env: Env): (r: Outcome)
    ensures r.Done? ==> AvailableIsComplement(r.state, env) && DefaultsParse(env)
    ensures r.Done? ==> Keys(r.state.tiles) == Split(TileSource(stored, env), Separator)
    ensures r.Done? ==> && (forall i :: 0 <= i < |r.state.tiles| ==> ShowsKey(r.state.tiles[i], env.pm))
                        && (forall i :: 0 <= i < |r.state.available| ==> ShowsKey(r.state.available[i], env.pm))
  {
    ParseTileList(Adapter([], [], stored, 0), env)
  }

  /** `setOrder`: persists the keys of `tiles`, joined with commas, and
      changes nothing else. */
  function SetOrder(a: Adapter, tiles: seq<Tile>): (r: Adapter)
    ensures r.tiles == a.tiles && r.available == a.available && r.nextRef == a.nextRef
    ensures r.stored == Some(Join(Keys(tiles), Separator))
  {
    a.(stored := Some(Join(Keys(tiles), Separator)))
  }

  /** As long as the list is non-empty and no key contains a comma, splitting
      the persisted string gives the keys back; an empty list is persisted as
      the empty string. */
  lemma SetOrderRoundTrip(a: Adapter, tiles: seq<Tile>)
    ensures |tiles| > 0 && (forall i :: 0 <= i < |tiles| ==> Separator !in tiles[i].key) ==>
              Split(SetOrder(a, tiles).stored.value, Separator) == Keys(tiles)
    ensures |tiles| == 0 ==> SetOrder(a, tiles).stored == Some("")
  {
    if |tiles| > 0 && (forall i :: 0 <= i < |tiles| ==> Separator !in tiles[i].key) {
      SplitJoin(Keys(tiles), Separator);
    }
  }

  /** `addTile`: appends the tile, persists the new order and refreshes the
      available tiles. */
  function AddTile(a: Adapter, tile: Tile, env: Env): (r: Outcome)
    ensures |r.state.tiles| == |a.tiles| + 1
    ensures r.state.tiles[..|a.tiles|] == a.tiles && r.state.tiles[|a.tiles|] == tile
    ensures r.state.stored == Some(Join(Keys(r.state.tiles), Separator))
    ensures r.Done? <==> DefaultsParse(env)
    ensures r.Done? ==> AvailableIsComplement(r.state, env)
    ensures r.Crashed? ==> r.state.available == []
    ensures r.Done? ==> forall i :: 0 <= i < |r.state.available| ==> ShowsKey(r.state.available[i], env.pm)
  {
    var tiles := a.tiles + [tile];
    Refresh(SetOrder(a.(tiles := tiles), tiles), env)
  }

  /** `removeTile`: deletes the first tile identical to `tile` (none when it is
      not in the list), persists the new order and refreshes the available
      tiles. */
  function RemoveTile(a: Adapter, tile: Tile, env: Env): (r: Outcome)
    ensures tile !in a.tiles ==> r.state.tiles == a.tiles
    ensures tile in a.tiles ==> exists i :: && 0 <= i < |a.tiles| && a.tiles[i] == tile && tile !in a.tiles[..i]
                                            && r.state.tiles == a.tiles[..i] + a.tiles[i + 1..]
    ensures r.state.stored == Some(Join(Keys(r.state.tiles), Separator))
    ensures r.Done? <==> DefaultsParse(env)
    ensures r.Done? ==> AvailableIsComplement(r.state, env)
    ensures r.Crashed? ==> r.state.available == []
    ensures r.Done? ==> forall i :: 0 <= i < |r.state.available| ==> ShowsKey(r.state.available[i], env.pm)
  {
    var tiles := RemoveFirst(a.tiles, tile);
    Refresh(SetOrder(a.(tiles := tiles), tiles), env)
  }

  /** Once an adapter has been built, adding or removing a tile never throws:
      the only thing they parse is the default order, which construction has
      already parsed successfully. */
  lemma NoCrashAfterConstruction(stored: Option<string>, env: Env, tile: Tile)
    requires NewAdapter(stored, env).Done?
    ensures AddTile(NewAdapter(stored, env).state, tile, env).Done?
    ensures RemoveTile(NewAdapter(stored, env).state, tile, env).Done?
  {
  }

  /** Reloading after a change gives back the same keys, as long as no key
      contains a comma and the persisted string is not empty (an empty string
      reads back as the default order). */
  lemma {:induction false} ReloadKeepsKeys(a: Adapter, env: Env)
    requires a.stored == Some(Join(Keys(a.tiles), Separator))
    requires a.stored != Some("")
    requires forall i :: 0 <= i < |a.tiles| ==> Separator !in a.tiles[i].key
    ensures ParseTileList(a, env).Done? ==> Keys(ParseTileList(a, env).state.tiles) == Keys(a.tiles)
  {
    if |a.tiles| > 0 {
      SplitJoin(Keys(a.tiles), Separator);
    }
  }

  /** Removing the last tile persists `""`, which the next parse reads as "no
      list": the tiles come back in default order. */
  lemma RemovingLastTileRestoresDefaults(a: Adapter, tile: Tile, env: Env)
    requires a.tiles == [tile]
    ensures RemoveTile(a, tile, env).state.tiles == []
    ensures RemoveTile(a, tile, env).state.stored == Some("")
    ensures var reloaded := ParseTileList(RemoveTile(a, tile, env).state, env);
            reloaded.Done? ==> Keys(reloaded.state.tiles) == DefaultKeys(env)
  {
  }
}
