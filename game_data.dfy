/**
  The reference data the script reads once from the game's `r3e-data.json`
  and the three lookups it makes in it: the display name of a car or car
  class (`get_car_name`), the display name of a track layout
  (`get_track_name`), and the list of every layout sorted by display name
  (`get_all_tracks`). The JSON file itself is not read here: the parsed
  document is a `GameData` value.
 */
module GameData {
  import opened Wrappers
  import opened Strings

  /** One entry of a track's `layouts` list. */
  datatype Layout = Layout(name: string, id: int)

  /** One value of the `tracks` object. */
  datatype Track = Track(name: string, layouts: seq<Layout>)

  /** One value of the `layouts` object: the layout's name and the id of its track. */
  datatype LayoutInfo = LayoutInfo(name: string, track: int)

  /**
    The parts of `r3e-data.json` the script uses. `tracks` lists the entries
    of the JSON object in the order `json.load` keeps them, because
    `get_all_tracks` visits them in that order (a document that repeats a
    key is taken to have been read already, one entry per key); `cars` and
    `classes` map an id to the `Name` of its record.
   */
  datatype GameData = GameData(
    tracks: seq<(string, Track)>,
    layouts: map<string, LayoutInfo>,
    cars: map<string, string>,
    classes: map<string, string>)

  /** A car is named by a number; a car class by a text of the form `class-<id>`. */
  datatype CarId = CarNumber(number: int) | CarClass(text: string)

  /** The value stored under `key` in the `tracks` object. */
  function TrackByKey(tracks: seq<(string, Track)>, key: string): (r: Option<Track>)
    ensures r.Some? ==> exists i :: 0 <= i < |tracks| && tracks[i] == (key, r.value)
    ensures r.None? <==> forall i :: 0 <= i < |tracks| ==> tracks[i].0 != key
  {
    if |tracks| == 0 then None
    else if tracks[0].0 == key then Some(tracks[0].1)
    else
      var r := TrackByKey(tracks[1..], key);
      assert forall i :: 1 <= i < |tracks| ==> tracks[i] == tracks[1..][i - 1];
      r
  }

  /** A JSON object never holds the same key twice. */
  ghost predicate UniqueKeys(tracks: seq<(string, Track)>) {
    forall i, j :: 0 <= i < j < |tracks| ==> tracks[i].0 != tracks[j].0
  }

  /** In an object with unique keys, looking a key up finds its own value. */
  lemma {:induction false} TrackByKeyFinds(tracks: seq<(string, Track)>, i: nat)
    requires UniqueKeys(tracks)
    requires i < |tracks|
    ensures TrackByKey(tracks, tracks[i].0) == Some(tracks[i].1)
  {
    if i > 0 {
      assert tracks[i].0 != tracks[0].0;
      assert UniqueKeys(tracks[1..]);
      TrackByKeyFinds(tracks[1..], i - 1);
    }
  }

  /** `get_car_name`: a class id loses its `class-` prefix and is looked up among the classes. */
  function GetCarName(data: GameData, car: CarId): Option<string> {
    match car
    case CarClass(text) =>
      var parts := Split(text, "class-");
      if |parts| < 2 then None
      else if parts[1] in data.classes then Some(data.classes[parts[1]])
      else None
    case CarNumber(n) =>
      var key := IntToString(n);
      if key in data.cars then Some(data.cars[key]) else None
  }

  /** The text `get_track_name` and `get_all_tracks` give a layout: `"<track> - <layout>"`. */
  function DisplayName(track: string, layout: string): string {
    track + " - " + layout
  }

  /** `get_track_name`: find the layout, then its track, and join their names. */
  function GetTrackName(data: GameData, trackId: int): Option<string> {
    var key := IntToString(trackId);
    if key !in data.layouts then None
    else
      var layout := data.layouts[key];
      match TrackByKey(data.tracks, IntToString(layout.track))
      case None => None
      case Some(t) => Some(DisplayName(t.name, layout.name))
  }

  // ---------------------------------------------------------------------------
  // get_all_tracks
  // ---------------------------------------------------------------------------

  /** The `(display name, id)` updates one track contributes, in list order. */
  function LayoutEntries(trackName: string, layouts: seq<Layout>): seq<(string, int)> {
    if |layouts| == 0 then []
    else
      var last := layouts[|layouts| - 1];
      LayoutEntries(trackName, layouts[..|layouts| - 1]) + [(DisplayName(trackName, last.name), last.id)]
  }

  /** Every update `get_all_tracks` makes to its dictionary, in the order it makes them. */
  function DisplayEntries(tracks: seq<(string, Track)>): seq<(string, int)> {
    if |tracks| == 0 then []
    else
      var last := tracks[|tracks| - 1].1;
      DisplayEntries(tracks[..|tracks| - 1]) + LayoutEntries(last.name, last.layouts)
  }

  /** The dictionary after a sequence of `update({name: id})` calls. */
  function MapOf(entries: seq<(string, int)>): map<string, int> {
    if |entries| == 0 then map[]
    else
      var last := entries[|entries| - 1];
      MapOf(entries[..|entries| - 1])[last.0 := last.1]
  }

  /** The dictionary `get_all_tracks` builds before sorting it. */
  function TrackMap(tracks: seq<(string, Track)>): map<string, int> {
    MapOf(DisplayEntries(tracks))
  }

  /** Strictly ascending by display name. */
  predicate SortedByName(r: seq<(string, int)>) {
    forall i, j :: 0 <= i < j < |r| ==> Less(r[i].0, r[j].0)
  }

  /** A pair whose name comes after every name in a sorted list extends it. */
  lemma SortedAppend(r: seq<(string, int)>, x: (string, int))
    requires SortedByName(r)
    requires forall i :: 0 <= i < |r| ==> Less(r[i].0, x.0)
    ensures SortedByName(r + [x])
  {
    var s := r + [x];
    forall i, j | 0 <= i < j < |s|
      ensures Less(s[i].0, s[j].0)
    {
      assert s[i] == r[i];
      if j < |r| { assert s[j] == r[j]; }
    }
  }

  /**
    Halfway through sorting `m`: `r` holds, in order, the pairs already
    taken out of `rest`, each with its id in `m` and each before every name
    still in `rest`.
   */
  ghost predicate SortingInvariant(m: map<string, int>, rest: map<string, int>, r: seq<(string, int)>) {
    && (forall k :: k in rest ==> k in m && rest[k] == m[k])
    && SortedByName(r)
    && (forall i, k :: 0 <= i < |r| && k in rest ==> Less(r[i].0, k))
    && (forall i :: 0 <= i < |r| ==> r[i].0 in m && m[r[i].0] == r[i].1)
    && (forall k :: k in m ==> k in rest || exists i :: 0 <= i < |r| && r[i].0 == k)
  }

  /** Taking `k` out of `rest` and appending it to `r` loses no name of `m`. */
  lemma StillCovered(m: map<string, int>, rest: map<string, int>, r: seq<(string, int)>, k: string)
    requires forall k' :: k' in m ==> k' in rest || exists i :: 0 <= i < |r| && r[i].0 == k'
    requires k in rest
    ensures forall k' :: k' in m ==> k' in rest - {k} || exists i :: 0 <= i < |r| + 1 && (r + [(k, rest[k])])[i].0 == k'
  {
    var r' := r + [(k, rest[k])];
    forall k' | k' in m && k' !in rest - {k}
      ensures exists i :: 0 <= i < |r'| && r'[i].0 == k'
    {
      if k' == k {
        assert r'[|r|].0 == k';
      } else {
        var i :| 0 <= i < |r| && r[i].0 == k';
        assert r'[i].0 == k';
      }
    }
  }

  /** Moving the least name still in `rest` to the end of `r` keeps the invariant. */
  lemma SortStep(m: map<string, int>, rest: map<string, int>, r: seq<(string, int)>, k: string)
    requires SortingInvariant(m, rest, r)
    requires k in rest && forall k' :: k' in rest ==> !Less(k', k)
    ensures SortingInvariant(m, rest - {k}, r + [(k, rest[k])])
  {
    // Folded to keep the proof small: the steps below use these definitions only through their contracts and lemmas.
    hide Less;
    forall k' | k' in rest && k' != k
      ensures Less(k, k')
    {
      LessTotal(k, k');
    }
    SortedAppend(r, (k, rest[k]));
    StillCovered(m, rest, r, k);
    var r' := r + [(k, rest[k])];
    assert forall i :: 0 <= i < |r| ==> r'[i] == r[i];
  }

  /** `sorted(m.items(), key=lambda t: t[0])`. */
  method SortByName(m: map<string, int>) returns (r: seq<(string, int)>)
    ensures SortedByName(r)
    ensures forall i :: 0 <= i < |r| ==> r[i].0 in m && m[r[i].0] == r[i].1
    ensures forall k :: k in m ==> exists i :: 0 <= i < |r| && r[i].0 == k
  {
    var rest := m;
    r := [];
    while rest != map[]
      invariant SortingInvariant(m, rest, r)
      decreases rest.Keys
    {
      HasMinimum(rest.Keys);
      var k :| k in rest && forall k' :: k' in rest ==> !Less(k', k);
      SortStep(m, rest, r, k);
      r := r + [(k, rest[k])];
      rest := rest - {k};
    }
  }

  /** One more update on the dictionary. */
  lemma MapOfSnoc(entries: seq<(string, int)>, x: (string, int))
    ensures MapOf(entries + [x]) == MapOf(entries)[x.0 := x.1]
  {
    assert (entries + [x])[..|entries|] == entries;
  }

  /** One more layout of a track. */
  lemma LayoutEntriesSnoc(trackName: string, layouts: seq<Layout>, j: nat)
    requires j < |layouts|
    ensures LayoutEntries(trackName, layouts[..j + 1])
         == LayoutEntries(trackName, layouts[..j]) + [(DisplayName(trackName, layouts[j].name), layouts[j].id)]
  {
    assert layouts[..j + 1][..j] == layouts[..j];
  }

  /** One more track. */
  lemma DisplayEntriesSnoc(tracks: seq<(string, Track)>, i: nat)
    requires i < |tracks|
    ensures DisplayEntries(tracks[..i + 1])
         == DisplayEntries(tracks[..i]) + LayoutEntries(tracks[i].1.name, tracks[i].1.layouts)
  {
    assert tracks[..i + 1][..i] == tracks[..i];
  }

  /** `get_all_tracks`: every layout of every track under its display name, sorted by that name. */
  method GetAllTracks(data: GameData) returns (r: seq<(string, int)>)
    ensures SortedByName(r)
    ensures forall i :: 0 <= i < |r| ==> r[i].0 in TrackMap(data.tracks) && TrackMap(data.tracks)[r[i].0] == r[i].1
    ensures forall name :: name in TrackMap(data.tracks) ==> exists i :: 0 <= i < |r| && r[i].0 == name
  {
    var results: map<string, int> := map[];
    var i := 0;
    assert data.tracks[..0] == [];
    // Folded to keep the proof small: the steps below use these definitions only through their contracts and lemmas.
    hide MapOf;
    hide DisplayEntries;
    hide LayoutEntries;
    while i < |data.tracks|
      invariant 0 <= i <= |data.tracks|
      invariant results == MapOf(DisplayEntries(data.tracks[..i]))
    {
      var track := data.tracks[i].1;
      var j := 0;
      assert track.layouts[..0] == [];
      LayoutEntriesLength(track.name, []);
      assert DisplayEntries(data.tracks[..i]) + LayoutEntries(track.name, track.layouts[..0])
          == DisplayEntries(data.tracks[..i]);
      while j < |track.layouts|
        invariant 0 <= j <= |track.layouts|
        invariant results == MapOf(DisplayEntries(data.tracks[..i]) + LayoutEntries(track.name, track.layouts[..j]))
      {
        var layout := track.layouts[j];
        LayoutEntriesSnoc(track.name, track.layouts, j);
        var entry := (DisplayName(track.name, layout.name), layout.id);
        MapOfSnoc(DisplayEntries(data.tracks[..i]) + LayoutEntries(track.name, track.layouts[..j]), entry);
        assert DisplayEntries(data.tracks[..i]) + LayoutEntries(track.name, track.layouts[..j + 1])
            == DisplayEntries(data.tracks[..i]) + LayoutEntries(track.name, track.layouts[..j]) + [entry];
        results := results[DisplayName(track.name, layout.name) := layout.id];
        j := j + 1;
      }
      assert track.layouts[..j] == track.layouts;
      DisplayEntriesSnoc(data.tracks, i);
      i := i + 1;
    }
    assert data.tracks[..i] == data.tracks;
    r := SortByName(results);
  }

  // ---------------------------------------------------------------------------
  // Properties
  // ---------------------------------------------------------------------------

  /**
    The dictionary holds `name: id` exactly when some update wrote that pair
    and no later update wrote `name` again: a later layout with the same
    display name replaces the earlier id.
   */
  lemma {:induction false} MapOfLastWins(entries: seq<(string, int)>, name: string, id: int)
    ensures (name in MapOf(entries) && MapOf(entries)[name] == id)
        <==> exists j :: 0 <= j < |entries| && entries[j] == (name, id)
                && forall j' :: j < j' < |entries| ==> entries[j'].0 != name
  {
    if |entries| > 0 {
      var init, last := entries[..|entries| - 1], entries[|entries| - 1];
      MapOfLastWins(init, name, id);
      if last.0 == name {
        if last.1 == id {
          assert entries[|entries| - 1] == (name, id);
        } else {
          forall j | 0 <= j < |entries| && entries[j] == (name, id)
            ensures exists j' :: j < j' < |entries| && entries[j'].0 == name
          {
            assert j != |entries| - 1;
          }
        }
      } else {
        if name in MapOf(entries) && MapOf(entries)[name] == id {
          var j :| 0 <= j < |init| && init[j] == (name, id)
                  && forall j' :: j < j' < |init| ==> init[j'].0 != name;
          assert entries[j] == (name, id);
        }
        forall j | 0 <= j < |entries| && entries[j] == (name, id)
              && (forall j' :: j < j' < |entries| ==> entries[j'].0 != name)
          ensures name in MapOf(entries) && MapOf(entries)[name] == id
        {
          assert j < |init| && init[j] == (name, id);
          assert forall j' :: j < j' < |init| ==> init[j'].0 != name;
        }
      }
    }
  }

  /** A name is in the dictionary exactly when some update wrote it. */
  lemma {:induction false} MapOfKeys(entries: seq<(string, int)>, name: string)
    ensures name in MapOf(entries) <==> exists j :: 0 <= j < |entries| && entries[j].0 == name
  {
    if |entries| > 0 {
      var init := entries[..|entries| - 1];
      MapOfKeys(init, name);
      if name in MapOf(init) {
        var j :| 0 <= j < |init| && init[j].0 == name;
        assert entries[j].0 == name;
      }
      forall j | 0 <= j < |entries| && entries[j].0 == name
        ensures name in MapOf(entries)
      {
        if j < |init| { assert init[j].0 == name; }
      }
    }
  }

  /** Every update names a layout of one of the tracks, with that layout's id. */
  lemma {:induction false} DisplayEntryOrigin(tracks: seq<(string, Track)>, k: nat)
    requires k < |DisplayEntries(tracks)|
    ensures exists i, j ::
              && 0 <= i < |tracks| && 0 <= j < |tracks[i].1.layouts|
              && DisplayEntries(tracks)[k]
                 == (DisplayName(tracks[i].1.name, tracks[i].1.layouts[j].name), tracks[i].1.layouts[j].id)
  {
    var init := tracks[..|tracks| - 1];
    var last := tracks[|tracks| - 1].1;
    if k < |DisplayEntries(init)| {
      DisplayEntryOrigin(init, k);
      var i, j :| 0 <= i < |init| && 0 <= j < |init[i].1.layouts|
        && DisplayEntries(init)[k]
           == (DisplayName(init[i].1.name, init[i].1.layouts[j].name), init[i].1.layouts[j].id);
      assert tracks[i] == init[i];
    } else {
      var j := k - |DisplayEntries(init)|;
      LayoutEntryAt(last.name, last.layouts, j);
      assert DisplayEntries(tracks)[k] == LayoutEntries(last.name, last.layouts)[j];
    }
  }

  /** Every layout of every track makes an update, with its display name and its id. */
  lemma {:induction false} LayoutEntryIn(tracks: seq<(string, Track)>, i: nat, j: nat)
    requires i < |tracks| && j < |tracks[i].1.layouts|
    ensures exists k :: 0 <= k < |DisplayEntries(tracks)|
              && DisplayEntries(tracks)[k]
                 == (DisplayName(tracks[i].1.name, tracks[i].1.layouts[j].name), tracks[i].1.layouts[j].id)
    decreases |tracks|
  {
    var init := tracks[..|tracks| - 1];
    var last := tracks[|tracks| - 1].1;
    var layout := tracks[i].1.layouts[j];
    var entry := (DisplayName(tracks[i].1.name, layout.name), layout.id);
    if i == |tracks| - 1 {
      LayoutEntriesLength(last.name, last.layouts);
      LayoutEntryAt(last.name, last.layouts, j);
      var k := |DisplayEntries(init)| + j;
      assert DisplayEntries(tracks)[k] == LayoutEntries(last.name, last.layouts)[j];
    } else {
      assert tracks[i] == init[i];
      LayoutEntryIn(init, i, j);
      var k :| 0 <= k < |DisplayEntries(init)| && DisplayEntries(init)[k] == entry;
      assert DisplayEntries(tracks)[k] == entry;
    }
  }

  /**
    `get_all_tracks` lists every layout: its display name is a key of the
    dictionary (whose id is that of the last layout of that name).
   */
  lemma EveryLayoutListed(tracks: seq<(string, Track)>, i: nat, j: nat)
    requires i < |tracks| && j < |tracks[i].1.layouts|
    ensures DisplayName(tracks[i].1.name, tracks[i].1.layouts[j].name) in TrackMap(tracks)
  {
    var name := DisplayName(tracks[i].1.name, tracks[i].1.layouts[j].name);
    LayoutEntryIn(tracks, i, j);
    MapOfKeys(DisplayEntries(tracks), name);
  }

  lemma {:induction false} LayoutEntryAt(trackName: string, layouts: seq<Layout>, j: nat)
    requires j < |LayoutEntries(trackName, layouts)|
    ensures |LayoutEntries(trackName, layouts)| == |layouts|
    ensures LayoutEntries(trackName, layouts)[j] == (DisplayName(trackName, layouts[j].name), layouts[j].id)
  {
    LayoutEntriesLength(trackName, layouts);
    var init := layouts[..|layouts| - 1];
    LayoutEntriesLength(trackName, init);
    if j < |init| {
      LayoutEntryAt(trackName, init, j);
    }
  }

  lemma {:induction false} LayoutEntriesLength(trackName: string, layouts: seq<Layout>)
    ensures |LayoutEntries(trackName, layouts)| == |layouts|
  {
    if |layouts| > 0 { LayoutEntriesLength(trackName, layouts[..|layouts| - 1]); }
  }

  /**
    The reference data agrees with itself: the keys of `tracks` are distinct,
    and every layout listed under a track is also in `layouts`, with the same
    name and with `Track` pointing back at that track's key.
   */
  ghost predicate Consistent(data: GameData) {
    && UniqueKeys(data.tracks)
    && forall i, j :: 0 <= i < |data.tracks| && 0 <= j < |data.tracks[i].1.layouts| ==>
         var layout := data.tracks[i].1.layouts[j];
         var key := IntToString(layout.id);
         key in data.layouts && data.layouts[key].name == layout.name
           && IntToString(data.layouts[key].track) == data.tracks[i].0
  }

  /**
    On consistent reference data, `get_track_name` gives every id in the
    sorted track list back the display name it is listed under.
   */
  lemma TrackNamesAgree(data: GameData, name: string)
    requires Consistent(data)
    requires name in TrackMap(data.tracks)
    ensures GetTrackName(data, TrackMap(data.tracks)[name]) == Some(name)
  {
    var entries := DisplayEntries(data.tracks);
    var id := TrackMap(data.tracks)[name];
    MapOfLastWins(entries, name, id);
    var k :| 0 <= k < |entries| && entries[k] == (name, id)
            && forall j' :: k < j' < |entries| ==> entries[j'].0 != name;
    DisplayEntryOrigin(data.tracks, k);
    var i, j :| 0 <= i < |data.tracks| && 0 <= j < |data.tracks[i].1.layouts|
      && entries[k] == (DisplayName(data.tracks[i].1.name, data.tracks[i].1.layouts[j].name), data.tracks[i].1.layouts[j].id);
    TrackByKeyFinds(data.tracks, i);
  }

  /** A class id `class-<k>` is looked up under `<k>`. */
  lemma CarClassName(data: GameData, k: string)
    requires !Occurs(k, "class-")
    ensures GetCarName(data, CarClass("class-" + k))
         == if k in data.classes then Some(data.classes[k]) else None
  {
    var text := "class-" + k;
    assert text[..|"class-"|] == "class-";
    assert text[|"class-"|..] == k;
    SplitAbsent(k, "class-");
  }

  /**
    A car number `n` finds the name stored under `str(n)`, and the entry
    stored under the text of any other number plays no part in its lookup.
   */
  lemma CarNumberName(data: GameData, n: int, m: int)
    requires IntToString(m) in data.cars
    ensures n == m ==> GetCarName(data, CarNumber(n)) == Some(data.cars[IntToString(m)])
    ensures n != m ==> GetCarName(data, CarNumber(n)) == GetCarName(data.(cars := data.cars - {IntToString(m)}), CarNumber(n))
  {
    if n != m && IntToString(n) == IntToString(m) {
      IntToStringInjective(n, m);
    }
  }

  /** A class id without the `class-` prefix anywhere makes the lookup fail. */
  lemma CarClassWithoutPrefix(data: GameData, text: string)
    requires !Occurs(text, "class-")
    ensures GetCarName(data, CarClass(text)) == None
  {
    SplitAbsent(text, "class-");
  }
}
