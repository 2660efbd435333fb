/**
 * The web-map integration: one marker layer per map world, rebuilt from
 * scratch from the stored waystones on every update, with a marker for each
 * global or server-owned waystone whose world has a layer; and the HTML
 * escaping of the texts put in marker tooltips.
 */
module Integration {
  import opened Wrappers
  import opened Waystones

  const LAYER_KEY := "sswaystones"
  const ICON_SERVER := "sswaystones_server"
  const ICON_PLAYER := "sswaystones_player"
  const ICON_SIZE := 24
  /** Title colours of the tooltip: purple for server waystones, blue for the others. */
  const SERVER_COLOR := "#a48bfc"
  const PLAYER_COLOR := "#86c4f9"

  // ---------------------------------------------------------------------
  // HTML escaping
  // ---------------------------------------------------------------------

  /** `s` with every `c` replaced by `replacement` (`String.replace` with a one-character target). */
  function ReplaceChar(s: string, c: char, replacement: string): string {
    if s == [] then []
    else (if s[0] == c then replacement else [s[0]]) + ReplaceChar(s[1..], c, replacement)
  }

  lemma {:induction false} ReplaceCharAppend(a: string, b: string, c: char, replacement: string)
    ensures ReplaceChar(a + b, c, replacement) == ReplaceChar(a, c, replacement) + ReplaceChar(b, c, replacement)
  {
    if a != [] {
      assert (a + b)[1..] == a[1..] + b;
      ReplaceCharAppend(a[1..], b, c, replacement);
    } else {
      assert a + b == b;
    }
  }

  lemma {:induction false} ReplaceCharAbsent(s: string, c: char, replacement: string)
    requires c !in s
    ensures ReplaceChar(s, c, replacement) == s
  {
    if s != [] {
      ReplaceCharAbsent(s[1..], c, replacement);
    }
  }

  /**
   * `escapeHtml`: `null` gives the empty string; otherwise `&`, `<`, `>`,
   * `"` and `'` are replaced, one character kind after the other, `&` first.
   * The chain comes to escaping each character on its own.
   */
  function EscapeHtml(text: Option<string>): (r: string)
    ensures text.None? ==> r == ""
    ensures text.Some? ==> r == EscapeEach(text.value)
  {
    match text
    case None => ""
    case Some(t) =>
      ReplaceAllIsPerCharacter(t);
      ReplaceAll(t)
  }

  /** The chain of replacements, in the source's order. */
  function ReplaceAll(t: string): string {
    ReplaceChar(ReplaceChar(ReplaceChar(ReplaceChar(ReplaceChar(
      t, '&', "&amp;"), '<', "&lt;"), '>', "&gt;"), '"', "&quot;"), '\'', "&#39;")
  }

  predicate IsSpecial(c: char) {
    c == '&' || c == '<' || c == '>' || c == '"' || c == '\''
  }

  /** The entity a character is written as, or the character itself. */
  function EscapeChar(c: char): (r: string)
    ensures IsSpecial(c) ==> |r| > 1
    ensures !IsSpecial(c) ==> r == [c]
  {
    match c
    case '&' => "&amp;"
    case '<' => "&lt;"
    case '>' => "&gt;"
    case '"' => "&quot;"
    case '\'' => "&#39;"
    case _ => [c]
  }

  predicate NoSpecials(s: string) {
    forall i :: 0 <= i < |s| ==> !IsSpecial(s[i])
  }

  /**
   * Character-by-character escaping: the output has no markup characters
   * left, is never shorter than the input, and is exactly as long when (and
   * only when) the input has nothing to escape.
   */
  function EscapeEach(s: string): (r: string)
    ensures '<' !in r && '>' !in r && '"' !in r && '\'' !in r
    ensures |r| >= |s|
    ensures |r| == |s| <==> NoSpecials(s)
  {
    if s == [] then []
    else
      var rest := EscapeEach(s[1..]);
      assert NoSpecials(s) <==> !IsSpecial(s[0]) && NoSpecials(s[1..]);
      EscapeChar(s[0]) + rest
  }

  /**
   * The chain of replacements escapes each character on its own: because `&`
   * goes first, the `&` of an entity written by a later step is never
   * escaped again.
   */
  lemma {:induction false} ReplaceAllIsPerCharacter(t: string)
    ensures ReplaceAll(t) == EscapeEach(t)
  {
    if t != [] {
      var c, rest := t[0], t[1..];
      assert t == [c] + rest;
      ReplaceAllAppend([c], rest);
      ReplaceAllOne(c);
      ReplaceAllIsPerCharacter(rest);
    }
  }

  lemma ReplaceAllAppend(a: string, b: string)
    ensures ReplaceAll(a + b) == ReplaceAll(a) + ReplaceAll(b)
  {
    var s1a, s1b := ReplaceChar(a, '&', "&amp;"), ReplaceChar(b, '&', "&amp;");
    ReplaceCharAppend(a, b, '&', "&amp;");
    var s2a, s2b := ReplaceChar(s1a, '<', "&lt;"), ReplaceChar(s1b, '<', "&lt;");
    ReplaceCharAppend(s1a, s1b, '<', "&lt;");
    var s3a, s3b := ReplaceChar(s2a, '>', "&gt;"), ReplaceChar(s2b, '>', "&gt;");
    ReplaceCharAppend(s2a, s2b, '>', "&gt;");
    var s4a, s4b := ReplaceChar(s3a, '"', "&quot;"), ReplaceChar(s3b, '"', "&quot;");
    ReplaceCharAppend(s3a, s3b, '"', "&quot;");
    ReplaceCharAppend(s4a, s4b, '\'', "&#39;");
  }

  /** On a single character one replacement step gives the replacement or the character. */
  lemma ReplaceCharOne(c: char, target: char, replacement: string)
    ensures ReplaceChar([c], target, replacement) == if c == target then replacement else [c]
  {
    assert [c][1..] == [];
  }

  /** On a single character the chain gives that character's entity. */
  lemma ReplaceAllOne(c: char)
    ensures ReplaceAll([c]) == EscapeChar(c)
  {
    ReplaceCharOne(c, '&', "&amp;");
    if c == '&' {
      assert '<' !in "&amp;" && '>' !in "&amp;" && '"' !in "&amp;" && '\'' !in "&amp;";
      ReplaceCharAbsent("&amp;", '<', "&lt;");
      ReplaceCharAbsent("&amp;", '>', "&gt;");
      ReplaceCharAbsent("&amp;", '"', "&quot;");
      ReplaceCharAbsent("&amp;", '\'', "&#39;");
      return;
    }
    ReplaceCharOne(c, '<', "&lt;");
    if c == '<' {
      assert '>' !in "&lt;" && '"' !in "&lt;" && '\'' !in "&lt;";
      ReplaceCharAbsent("&lt;", '>', "&gt;");
      ReplaceCharAbsent("&lt;", '"', "&quot;");
      ReplaceCharAbsent("&lt;", '\'', "&#39;");
      return;
    }
    ReplaceCharOne(c, '>', "&gt;");
    if c == '>' {
      assert '"' !in "&gt;" && '\'' !in "&gt;";
      ReplaceCharAbsent("&gt;", '"', "&quot;");
      ReplaceCharAbsent("&gt;", '\'', "&#39;");
      return;
    }
    ReplaceCharOne(c, '"', "&quot;");
    if c == '"' {
      assert '\'' !in "&quot;";
      ReplaceCharAbsent("&quot;", '\'', "&#39;");
      return;
    }
    ReplaceCharOne(c, '\'', "&#39;");
  }

  // ---------------------------------------------------------------------
  // Markers
  // ---------------------------------------------------------------------

  datatype Point = Point(x: int, z: int)

  /** The tooltip's contents: the title colour, the escaped name (its title), the escaped owner line and the coordinates. */
  datatype Tooltip = Tooltip(titleColor: string, title: string, ownerInfo: string, pos: BlockPos)

  /** An icon marker; its hover and click tooltips are the same. */
  datatype Marker = Marker(icon: string, point: Point, size: int, tooltip: Tooltip)

  /** Only global and server-owned waystones are drawn. */
  predicate ShownOnMap(w: WaystoneRecord) {
    w.access.global || w.access.serverOwned
  }

  /** The marker of a shown waystone: icon and colour by ownership, placed at its x and z, with escaped texts. */
  function MarkerFor(w: WaystoneRecord): (m: Marker)
    ensures m.point == Point(w.pos.x, w.pos.z) && m.size == ICON_SIZE && m.tooltip.pos == w.pos
    ensures m.icon == ICON_SERVER <==> w.access.serverOwned
    ensures m.tooltip.title == EscapeEach(w.name)
    ensures '<' !in m.tooltip.title && '>' !in m.tooltip.title
    ensures '<' !in m.tooltip.ownerInfo && '>' !in m.tooltip.ownerInfo
  {
    var server := w.access.serverOwned;
    var ownerInfo := if server then "Server Waystone" else "Owner: " + w.ownerName;
    Marker(
      if server then ICON_SERVER else ICON_PLAYER,
      Point(w.pos.x, w.pos.z),
      ICON_SIZE,
      Tooltip(if server then SERVER_COLOR else PLAYER_COLOR, EscapeHtml(Some(w.name)), EscapeHtml(Some(ownerInfo)), w.pos))
  }

  /** The markers of one world's layer after an update, keyed by the storage key of their waystone. */
  function LayerMarkers(waystones: map<string, WaystoneRecord>, world: string): map<string, Marker> {
    map key | key in waystones && ShownOnMap(waystones[key]) && waystones[key].world == world :: MarkerFor(waystones[key])
  }

  /** Every layer after an update. */
  function Rebuilt(worlds: set<string>, waystones: map<string, WaystoneRecord>): (r: map<string, map<string, Marker>>)
    ensures r.Keys == worlds
  {
    map world | world in worlds :: LayerMarkers(waystones, world)
  }

  /**
   * After an update a stored waystone has a marker exactly when it is shown
   * on the map and its world has a layer, and then in that layer only, at
   * its x and z, with the server or player icon, colour and owner line.
   */
  lemma MarkerPlacement(worlds: set<string>, waystones: map<string, WaystoneRecord>, key: string, world: string)
    requires key in waystones && world in worlds
    ensures var layers := Rebuilt(worlds, waystones);
      var w := waystones[key];
      && (key in layers[world] <==> ShownOnMap(w) && w.world == world)
      && (key in layers[world] ==>
            && layers[world][key].point == Point(w.pos.x, w.pos.z)
            && layers[world][key].icon == (if w.access.serverOwned then ICON_SERVER else ICON_PLAYER)
            && layers[world][key].tooltip.titleColor == (if w.access.serverOwned then SERVER_COLOR else PLAYER_COLOR)
            && layers[world][key].tooltip.title == EscapeEach(w.name)
            && layers[world][key].tooltip.ownerInfo ==
                 EscapeEach(if w.access.serverOwned then "Server Waystone" else "Owner: " + w.ownerName))
  {
  }

  /** No tooltip text taken from a waystone can carry markup into the map page. */
  lemma TooltipsCarryNoMarkup(w: WaystoneRecord)
    ensures var t := MarkerFor(w).tooltip;
      && '<' !in t.title && '>' !in t.title && '"' !in t.title && '\'' !in t.title
      && '<' !in t.ownerInfo && '>' !in t.ownerInfo && '"' !in t.ownerInfo && '\'' !in t.ownerInfo
  {
  }

  /** The entries of `layer` whose keys are in `done`. */
  ghost function Restrict(layer: map<string, Marker>, done: set<string>): map<string, Marker> {
    map key | key in done && key in layer :: layer[key]
  }

  /** Restricting to a set holding every key leaves the layer as it is. */
  lemma RestrictToAll(layer: map<string, Marker>, done: set<string>)
    requires layer.Keys <= done
    ensures Restrict(layer, done) == layer
  {
    assert Restrict(layer, done).Keys == layer.Keys;
  }

  /** Going through one more key adds that key's entry, if it has one. */
  lemma RestrictStep(layer: map<string, Marker>, done: set<string>, key: string)
    ensures Restrict(layer, done + {key}) ==
      if key in layer then Restrict(layer, done)[key := layer[key]] else Restrict(layer, done)
  {
    var before := Restrict(layer, done);
    var after := Restrict(layer, done + {key});
    if key in layer {
      assert after.Keys == before.Keys + {key};
    } else {
      assert after.Keys == before.Keys;
    }
  }

  // ---------------------------------------------------------------------
  // Lifecycle
  // ---------------------------------------------------------------------

  /** The integration's static state: whether it is running, for which server, and the layer of each map world. */
  class SquaremapIntegration {
    var initialized: bool
    var currentServer: Option<string>
    var layerProviders: map<string, map<string, Marker>>

    constructor ()
      ensures !initialized && currentServer == None && layerProviders == map[]
    {
      initialized, currentServer, layerProviders := false, None, map[];
    }

    /**
     * Server start: when the map plugin is present, adds an empty layer for
     * every map world, marks the integration running and draws the markers.
     */
    method Initialize(squaremapAvailable: bool, server: string, mapWorlds: seq<string>,
                      waystones: map<string, WaystoneRecord>)
      modifies this
      ensures !squaremapAvailable ==> unchanged(this)
      ensures squaremapAvailable ==>
        && initialized && currentServer == Some(server)
        && layerProviders == Rebuilt(old(layerProviders).Keys + (set w | w in mapWorlds), waystones)
    {
      if !squaremapAvailable {
        return;
      }
      currentServer := Some(server);
      var layers := layerProviders;
      for i := 0 to |mapWorlds|
        invariant layers.Keys == old(layerProviders).Keys + (set w | w in mapWorlds[..i])
      {
        layers := layers[mapWorlds[i] := map[]];
        assert mapWorlds[..i + 1] == mapWorlds[..i] + [mapWorlds[i]];
      }
      assert mapWorlds[..|mapWorlds|] == mapWorlds;
      layerProviders := layers;
      initialized := true;
      UpdateMarkers(waystones);
    }

    /** Server stop: forgets the layers and the server, when running. */
    method Shutdown()
      modifies this
      ensures !old(initialized) ==> unchanged(this)
      ensures old(initialized) ==> !initialized && currentServer == None && layerProviders == map[]
    {
      if !initialized {
        return;
      }
      layerProviders := map[];
      currentServer := None;
      initialized := false;
    }

    /** Redraws every layer from the current server's waystones; does nothing unless running. */
    method UpdateMarkers(waystones: map<string, WaystoneRecord>)
      modifies this`layerProviders
      ensures initialized && currentServer.Some? ==> layerProviders == Rebuilt(old(layerProviders).Keys, waystones)
      ensures !(initialized && currentServer.Some?) ==> layerProviders == old(layerProviders)
    {
      if !initialized || currentServer.None? {
        return;
      }
      UpdateMarkersInternal(waystones);
    }

    /** Clears every layer, then adds a marker for each shown waystone to the layer of its world. */
    method UpdateMarkersInternal(waystones: map<string, WaystoneRecord>)
      modifies this`layerProviders
      ensures layerProviders == Rebuilt(old(layerProviders).Keys, waystones)
    {
      var cleared := ClearLayers(layerProviders);
      layerProviders := AddMarkers(cleared, waystones);
    }
  }

  /** The first loop of an update: every layer loses its markers; no layer is added or removed. */
  method ClearLayers(layers: map<string, map<string, Marker>>) returns (cleared: map<string, map<string, Marker>>)
    ensures cleared.Keys == layers.Keys
    ensures forall w :: w in cleared ==> cleared[w] == map[]
  {
    cleared := layers;
    var toClear := layers.Keys;
    while toClear != {}
      invariant toClear <= layers.Keys && cleared.Keys == layers.Keys
      invariant forall w :: w in cleared && w !in toClear ==> cleared[w] == map[]
      decreases toClear
    {
      var w :| w in toClear;
      cleared := cleared[w := map[]];
      toClear := toClear - {w};
    }
  }

  /**
   * The second loop of an update: each shown waystone whose world has a
   * layer gets its marker there; starting from empty layers, every layer
   * ends up holding exactly the markers of its world.
   */
  method AddMarkers(layers: map<string, map<string, Marker>>, waystones: map<string, WaystoneRecord>)
    returns (filled: map<string, map<string, Marker>>)
    requires forall w :: w in layers ==> layers[w] == map[]
    ensures filled == Rebuilt(layers.Keys, waystones)
  {
    filled := layers;
    var toAdd := waystones.Keys;
    ghost var done: set<string> := {};
    assert forall w :: w in filled ==> filled[w] == Restrict(LayerMarkers(waystones, w), done);
    while toAdd != {}
      invariant toAdd <= waystones.Keys && done == waystones.Keys - toAdd
      invariant filled.Keys == layers.Keys
      invariant forall w :: w in filled ==> filled[w] == Restrict(LayerMarkers(waystones, w), done)
      decreases toAdd
    {
      var key :| key in toAdd;
      var waystone := waystones[key];
      ghost var before := filled;
      if ShownOnMap(waystone) && waystone.world in filled {
        var world := waystone.world;
        filled := filled[world := filled[world][key := MarkerFor(waystone)]];
      }
      AddMarkerStep(before, filled, waystones, done, key);
      toAdd := toAdd - {key};
      done := done + {key};
    }
    AllMarkersAdded(filled, waystones, done);
  }

  /** One pass of the adding loop keeps every layer the restriction of its final markers to the keys gone through. */
  lemma AddMarkerStep(before: map<string, map<string, Marker>>, after: map<string, map<string, Marker>>,
                      waystones: map<string, WaystoneRecord>, done: set<string>, key: string)
    requires key in waystones
    requires forall w :: w in before ==> before[w] == Restrict(LayerMarkers(waystones, w), done)
    requires var waystone := waystones[key];
      after == if ShownOnMap(waystone) && waystone.world in before
               then before[waystone.world := before[waystone.world][key := MarkerFor(waystone)]]
               else before
    ensures after.Keys == before.Keys
    ensures forall w :: w in after ==> after[w] == Restrict(LayerMarkers(waystones, w), done + {key})
  {
    var waystone := waystones[key];
    forall w | w in after
      ensures after[w] == Restrict(LayerMarkers(waystones, w), done + {key})
    {
      RestrictStep(LayerMarkers(waystones, w), done, key);
      if ShownOnMap(waystone) && waystone.world == w {
        assert LayerMarkers(waystones, w)[key] == MarkerFor(waystone);
      } else {
        assert key !in LayerMarkers(waystones, w);
      }
    }
  }

  /** Once every stored waystone has been gone through, each layer holds all the markers of its world. */
  lemma AllMarkersAdded(filled: map<string, map<string, Marker>>, waystones: map<string, WaystoneRecord>, done: set<string>)
    requires done == waystones.Keys
    requires forall w :: w in filled ==> filled[w] == Restrict(LayerMarkers(waystones, w), done)
    ensures filled == Rebuilt(filled.Keys, waystones)
  {
    forall w | w in filled
      ensures filled[w] == LayerMarkers(waystones, w)
    {
      RestrictToAll(LayerMarkers(waystones, w), done);
    }
    var rebuilt := Rebuilt(filled.Keys, waystones);
    assert rebuilt.Keys == filled.Keys;
    assert forall w :: w in filled ==> rebuilt[w] == filled[w];
  }
}
