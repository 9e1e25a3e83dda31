/**
 * Locality prediction: gazetteer regions (countries, oceans) with the
 * subregions found inside them.
 *
 * The regions table maps each region name to the names it was found as and
 * to its subregions; the subregions table maps each subregion name to the
 * names it was found as. The GeoNames web search is a function from a place
 * name to the countries of its hits, best hit first; its results are kept in
 * a cache so that a place is looked up at most once.
 */
module Locality {
  import opened Wrappers
  import opened Strings
  import opened OrderedTable

  // ---------------------------------------------------------------------------
  // get_most_likely_region

  /** The country of one GeoNames hit; None for a hit that lies in no country (an ocean, say). */
  type Country = Option<string>

  /** `res.country in geo_preds_regions` */
  predicate IsKnown(c: Country, known: seq<string>) {
    c.Some? && c.value in known
  }

  /** `likely_regions`: the hits whose country is a known region, in result order. */
  function LikelyRegions(hits: seq<Country>, known: seq<string>): (r: seq<Country>)
    ensures forall c :: c in r <==> c in hits && IsKnown(c, known)
    decreases |hits|
  {
    if hits == [] then []
    else (if IsKnown(hits[0], known) then [hits[0]] else []) + LikelyRegions(hits[1..], known)
  }

  /** The first entry of `likely_regions` is the first hit, in result order, with a known country. */
  lemma {:induction false} LikelyRegionsHead(hits: seq<Country>, known: seq<string>) returns (j: nat)
    requires LikelyRegions(hits, known) != []
    ensures j < |hits| && LikelyRegions(hits, known)[0] == hits[j] && IsKnown(hits[j], known)
    ensures forall m :: 0 <= m < j ==> !IsKnown(hits[m], known)
    decreases |hits|
  {
    if IsKnown(hits[0], known) {
      j := 0;
    } else {
      var j' := LikelyRegionsHead(hits[1..], known);
      j := j' + 1;
    }
  }

  /**
   * `get_most_likely_region`: None for no hits; otherwise the top hit's
   * country, unless that country is not a known region and some other hit's
   * country is, in which case the first such country. A top hit without a
   * country gives None as well.
   */
  function MostLikelyRegion(hits: seq<Country>, known: seq<string>): (r: Country)
    ensures hits == [] ==> r == None
    ensures hits != [] && IsKnown(hits[0], known) ==> r == hits[0]
    ensures hits != [] && (forall k :: 0 <= k < |hits| ==> !IsKnown(hits[k], known)) ==> r == hits[0]
    ensures r.Some? ==> r == hits[0] || r.value in known
  {
    if hits == [] then None
    else
      var likelyRegions := LikelyRegions(hits, known);
      var topRegionHit := hits[0];
      assert likelyRegions != [] ==> likelyRegions[0] in likelyRegions;
      if topRegionHit in likelyRegions || likelyRegions == [] then topRegionHit
      else likelyRegions[0]
  }

  /**
   * When the top hit's country is not a known region but another hit's is,
   * the result is the country of the first hit, in result order, that is known.
   */
  lemma FirstKnownHitChosen(hits: seq<Country>, known: seq<string>)
    requires hits != [] && !IsKnown(hits[0], known)
    requires exists k :: 0 <= k < |hits| && IsKnown(hits[k], known)
    ensures exists j :: (0 < j < |hits| && MostLikelyRegion(hits, known) == hits[j]
                         && IsKnown(hits[j], known) && forall m :: 0 <= m < j ==> !IsKnown(hits[m], known))
  {
    var k :| 0 <= k < |hits| && IsKnown(hits[k], known);
    assert hits[k] in LikelyRegions(hits, known);
    var j := LikelyRegionsHead(hits, known);
    assert hits[0] !in LikelyRegions(hits, known);
    assert j > 0;
  }

  // ---------------------------------------------------------------------------
  // The regions and subregions tables.

  /**
   * An entry of a region's subregion list. Appends add lists of names; a
   * region created from a subregion's country gets the subregion's names
   * list itself as its subregion list, whose entries are then single names.
   */
  datatype SubregionItem = Names(names: seq<string>) | Name(name: string)

  /** `{'found_as': [...], 'subregions': [...]}` */
  datatype RegionEntry = RegionEntry(foundAs: seq<string>, subregions: seq<SubregionItem>)

  /** `{'found_as': [...]}` */
  datatype SubregionEntry = SubregionEntry(foundAs: seq<string>)

  /** The names list `found_as[i]` used directly as a list of subregions. */
  function Flat(found: seq<string>): (r: seq<SubregionItem>)
    ensures |r| == |found|
    ensures forall k :: 0 <= k < |r| ==> r[k] == Name(found[k])
  {
    seq(|found|, k requires 0 <= k < |found| => Name(found[k]))
  }

  /** `not loc_region` */
  predicate Unresolved(c: Country) {
    c == None || c == Some("")
  }

  /** One pass of the loop of `assign_to_region_or_subregion`, given the location's GeoNames hits. */
  function AssignOne(regions: Table<RegionEntry>, loc: string, hits: seq<Country>, found: seq<string>): (r: Table<RegionEntry>)
    ensures regions.Valid() ==> r.Valid()
  {
    var locRegion := MostLikelyRegion(hits, regions.keys);
    if Unresolved(locRegion) then Put(regions, loc, RegionEntry(found, []))
    else if locRegion.value !in regions.values then
      Put(regions, locRegion.value, RegionEntry([locRegion.value], Flat(found)))
    else
      var entry := regions.values[locRegion.value];
      if Names(found) !in entry.subregions then
        Put(regions, locRegion.value, entry.(subregions := entry.subregions + [Names(found)]))
      else regions
  }

  /** The region one pass writes to: the location itself when it has no country. */
  function Target(regions: Table<RegionEntry>, loc: string, hits: seq<Country>): string {
    var locRegion := MostLikelyRegion(hits, regions.keys);
    if Unresolved(locRegion) then loc else locRegion.value
  }

  /**
   * One pass changes the entry of its target region only, keeps every key in
   * place and adds the target's key at the end when it is new. An existing
   * target gets the names list appended exactly when it was not there yet,
   * and otherwise nothing changes; a location without a country overwrites
   * the entry of the same name.
   */
  lemma AssignOneEffect(regions: Table<RegionEntry>, loc: string, hits: seq<Country>, found: seq<string>)
    requires regions.Valid()
    ensures var r := AssignOne(regions, loc, hits, found);
      var c := Target(regions, loc, hits);
      && (forall k :: k in regions.values && k != c ==> k in r.values && r.values[k] == regions.values[k])
      && (c in regions.values ==> r.keys == regions.keys)
      && (c !in regions.values ==> r.keys == regions.keys + [c])
      && c in r.values
      && (Unresolved(MostLikelyRegion(hits, regions.keys)) ==> r.values[c] == RegionEntry(found, []))
      && (!Unresolved(MostLikelyRegion(hits, regions.keys)) && c !in regions.values ==>
            r.values[c] == RegionEntry([c], Flat(found)))
      && (!Unresolved(MostLikelyRegion(hits, regions.keys)) && c in regions.values ==>
            r.values[c].foundAs == regions.values[c].foundAs
            && (Names(found) !in regions.values[c].subregions ==>
                  r.values[c].subregions == regions.values[c].subregions + [Names(found)])
            && (Names(found) in regions.values[c].subregions ==> r == regions))
  {
  }

  /** The appends never put the same names list into a region twice. */
  lemma AppendKeepsNamesDistinct(regions: Table<RegionEntry>, loc: string, hits: seq<Country>, found: seq<string>, c: string)
    requires regions.Valid() && c in regions.values
    requires !Unresolved(MostLikelyRegion(hits, regions.keys)) && Target(regions, loc, hits) == c
    requires Distinct(regions.values[c].subregions)
    ensures Distinct(AssignOne(regions, loc, hits, found).values[c].subregions)
  {
    var s := regions.values[c].subregions;
    if Names(found) !in s {
      var s' := s + [Names(found)];
      assert forall a, b :: 0 <= a < b < |s'| ==> s'[a] != s'[b] by {
        forall a, b | 0 <= a < b < |s'| ensures s'[a] != s'[b] {
          if b == |s| {
            assert s'[a] == s[a] && s[a] in s;
          } else {
            assert s'[a] == s[a] && s'[b] == s[b];
          }
        }
      }
    }
  }

  // ---------------------------------------------------------------------------
  // assign_to_region_or_subregion

  /** The regions table together with the cache and, as a record, the places looked up so far. */
  datatype AssignState = AssignState(regions: Table<RegionEntry>, cache: map<string, seq<Country>>, lookups: seq<string>)

  /** The GeoNames lookup through the cache: a place not cached yet is looked up and stored. */
  function Fetch(st: AssignState, loc: string, geonames: string -> seq<Country>): (r: AssignState)
    ensures loc in r.cache && r.regions == st.regions
    ensures forall k :: k in st.cache ==> k in r.cache && r.cache[k] == st.cache[k]
    ensures r.cache.Keys == st.cache.Keys + {loc}
    ensures loc !in st.cache ==> r.cache[loc] == geonames(loc) && r.lookups == st.lookups + [loc]
    ensures loc in st.cache ==> r == st
  {
    if loc in st.cache then st
    else AssignState(st.regions, st.cache[loc := geonames(loc)], st.lookups + [loc])
  }

  /**
   * How one pass updates the regions table from the location, its hits and
   * its names list: `AssignOne` in the program; the lemmas about the cache
   * hold for any update.
   */
  type Update = (Table<RegionEntry>, string, seq<Country>, seq<string>) -> Table<RegionEntry>

  /** One pass of the loop: fetch the location's hits, then assign it. */
  function Pass(st: AssignState, loc: string, found: seq<string>, geonames: string -> seq<Country>,
                assign: Update): (r: AssignState)
    ensures r.cache == Fetch(st, loc, geonames).cache && r.lookups == Fetch(st, loc, geonames).lookups
  {
    var fetched := Fetch(st, loc, geonames);
    fetched.(regions := assign(fetched.regions, loc, fetched.cache[loc], found))
  }

  /**
   * The state after the passes for `locs[i..]`, and whether `found_as[i]`
   * raised an IndexError (a location without its names list). The error is
   * raised after the location was fetched, before the table is written.
   */
  function AssignFrom(st: AssignState, locs: seq<string>, foundAs: seq<seq<string>>,
                      geonames: string -> seq<Country>, assign: Update, i: nat): (r: (AssignState, bool))
    requires i <= |locs|
    ensures r.1 <==> i < |locs| && |foundAs| < |locs|
    decreases |locs| - i
  {
    if i == |locs| then (st, false)
    else if i >= |foundAs| then (Fetch(st, locs[i], geonames), true)
    else AssignFrom(Pass(st, locs[i], foundAs[i], geonames, assign), locs, foundAs, geonames, assign, i + 1)
  }

  /** The passes of the program keep the regions table valid. */
  lemma {:induction false} AssignKeepsValid(st: AssignState, locs: seq<string>, foundAs: seq<seq<string>>,
                                            geonames: string -> seq<Country>, i: nat)
    requires i <= |locs| && st.regions.Valid()
    ensures AssignFrom(st, locs, foundAs, geonames, AssignOne, i).0.regions.Valid()
    decreases |locs| - i
  {
    if i < |locs| && i < |foundAs| {
      AssignKeepsValid(Pass(st, locs[i], foundAs[i], geonames, AssignOne), locs, foundAs, geonames, i + 1);
    }
  }

  /** How many locations are read: all of them, or up to the one whose names list is missing. */
  function ReadCount(locs: seq<string>, foundAs: seq<seq<string>>): (n: nat)
    ensures n <= |locs|
  {
    if |foundAs| < |locs| then |foundAs| + 1 else |locs|
  }

  /**
   * The cache afterwards holds every location read, keeps every entry it had,
   * and stores the GeoNames result for each new key.
   */
  lemma {:induction false} AssignCache(st: AssignState, locs: seq<string>, foundAs: seq<seq<string>>,
                                       geonames: string -> seq<Country>, assign: Update, i: nat)
    requires i <= |locs| && i <= |foundAs|
    ensures var c := AssignFrom(st, locs, foundAs, geonames, assign, i).0.cache;
      && (forall k :: k in c <==> k in st.cache || k in locs[i..ReadCount(locs, foundAs)])
      && (forall k :: k in st.cache ==> c[k] == st.cache[k])
      && (forall k :: k in c && k !in st.cache ==> c[k] == geonames(k))
    decreases |locs| - i
  {
    if i < |locs| {
      var n := ReadCount(locs, foundAs);
      var read := locs[i..n];
      assert read[0] == locs[i];
      assert forall k :: k in read <==> k == locs[i] || k in read[1..];
      if i < |foundAs| {
        AssignCache(Pass(st, locs[i], foundAs[i], geonames, assign), locs, foundAs, geonames, assign, i + 1);
        assert read[1..] == locs[i + 1..n];
      } else {
        assert read[1..] == [];
      }
    }
  }

  /**
   * The places a run asks GeoNames about, given the places cached before and
   * the locations it reads: each location not cached yet, at its first reading.
   */
  function NewLookups(cached: set<string>, read: seq<string>): seq<string>
    decreases |read|
  {
    if read == [] then []
    else if read[0] in cached then NewLookups(cached, read[1..])
    else [read[0]] + NewLookups(cached + {read[0]}, read[1..])
  }

  /** A place is looked up exactly when it is read and was not cached. */
  lemma {:induction false} NewLookupsMembers(cached: set<string>, read: seq<string>)
    ensures forall k :: k in NewLookups(cached, read) <==> k !in cached && k in read
    decreases |read|
  {
    if read != [] {
      if read[0] in cached {
        NewLookupsMembers(cached, read[1..]);
      } else {
        NewLookupsMembers(cached + {read[0]}, read[1..]);
      }
      assert forall k :: k in read <==> k == read[0] || k in read[1..];
    }
  }

  /** No place is looked up twice. */
  lemma {:induction false} NewLookupsDistinct(cached: set<string>, read: seq<string>)
    ensures Distinct(NewLookups(cached, read))
    decreases |read|
  {
    if read != [] {
      if read[0] in cached {
        NewLookupsDistinct(cached, read[1..]);
      } else {
        var rest := NewLookups(cached + {read[0]}, read[1..]);
        NewLookupsDistinct(cached + {read[0]}, read[1..]);
        NewLookupsMembers(cached + {read[0]}, read[1..]);
        assert read[0] !in rest;
        var l := [read[0]] + rest;
        forall a, b | 0 <= a < b < |l| ensures l[a] != l[b] {
          if a == 0 {
            assert l[b] == rest[b - 1];
          } else {
            assert l[a] == rest[a - 1] && l[b] == rest[b - 1];
          }
        }
      }
    }
  }

  /** One location read: it is looked up unless cached, and is cached afterwards. */
  lemma NewLookupsStep(cached: set<string>, read: seq<string>)
    requires read != []
    ensures NewLookups(cached, read)
      == (if read[0] in cached then [] else [read[0]]) + NewLookups(cached + {read[0]}, read[1..])
  {
    if read[0] in cached {
      assert cached + {read[0]} == cached;
    }
  }

  /** The record of lookups grows by exactly the new lookups of the locations read. */
  lemma {:induction false} AssignLookups(st: AssignState, locs: seq<string>, foundAs: seq<seq<string>>,
                                         geonames: string -> seq<Country>, assign: Update, i: nat)
    requires i <= |locs| && i <= |foundAs|
    ensures AssignFrom(st, locs, foundAs, geonames, assign, i).0.lookups
      == st.lookups + NewLookups(st.cache.Keys, locs[i..ReadCount(locs, foundAs)])
    decreases |locs| - i
  {
    var read := locs[i..ReadCount(locs, foundAs)];
    if i == |locs| {
      assert read == [];
    } else {
      var loc := locs[i];
      var fetched := Fetch(st, loc, geonames);
      var first := if loc in st.cache then [] else [loc];
      NewLookupsStep(st.cache.Keys, read);
      assert fetched.lookups == st.lookups + first;
      assert fetched.cache.Keys == st.cache.Keys + {loc};
      if i < |foundAs| {
        var st' := Pass(st, loc, foundAs[i], geonames, assign);
        var later := NewLookups(st.cache.Keys + {loc}, locs[i + 1..ReadCount(locs, foundAs)]);
        assert read[1..] == locs[i + 1..ReadCount(locs, foundAs)];
        assert AssignFrom(st, locs, foundAs, geonames, assign, i) == AssignFrom(st', locs, foundAs, geonames, assign, i + 1);
        var keys' := st'.cache.Keys;
        assert keys' == st.cache.Keys + {loc};
        assert st'.lookups == st.lookups + first;
        AssignLookups(st', locs, foundAs, geonames, assign, i + 1);
        assert AssignFrom(st, locs, foundAs, geonames, assign, i).0.lookups == (st.lookups + first) + later;
        AppendAssoc(st.lookups, first, later);
      } else {
        assert read[1..] == [];
        assert NewLookups(st.cache.Keys + {loc}, []) == [];
      }
    }
  }

  /** The entity whose fields `assign_to_region_or_subregion` updates in place: `geo_preds`. */
  class GeoPreds {
    var regions: Table<RegionEntry>
    var subregions: Table<SubregionEntry>

    ghost predicate Valid()
      reads this
    {
      regions.Valid() && subregions.Valid()
    }

    constructor(regions: Table<RegionEntry>, subregions: Table<SubregionEntry>)
      requires regions.Valid() && subregions.Valid()
      ensures Valid()
      ensures this.regions == regions && this.subregions == subregions
    {
      this.regions := regions;
      this.subregions := subregions;
    }
  }

  /** `GEONAMES_CACHE`, with a record of the places looked up through it. */
  class GeonamesCache {
    var entries: map<string, seq<Country>>
    ghost var lookups: seq<string>

    constructor(entries: map<string, seq<Country>>)
      ensures this.entries == entries && lookups == []
    {
      this.entries := entries;
      lookups := [];
    }
  }

  /**
   * `assign_to_region_or_subregion`: updates the regions table of `geoPreds`
   * and the cache. `raised` says whether `found_as[i]` raised an IndexError;
   * the subregions table is left alone.
   */
  method AssignToRegionOrSubregion(locations: seq<string>, geoPreds: GeoPreds, foundAs: seq<seq<string>>,
                                   cache: GeonamesCache, geonames: string -> seq<Country>)
    returns (raised: bool)
    requires geoPreds.Valid()
    modifies geoPreds, cache
    ensures geoPreds.Valid()
    ensures geoPreds.subregions == old(geoPreds.subregions)
    ensures (AssignState(geoPreds.regions, cache.entries, cache.lookups), raised)
      == AssignFrom(AssignState(old(geoPreds.regions), old(cache.entries), old(cache.lookups)),
                    locations, foundAs, geonames, AssignOne, 0)
  {
    ghost var start := AssignState(geoPreds.regions, cache.entries, cache.lookups);
    var i := 0;
    while i < |locations|
      invariant 0 <= i <= |locations|
      invariant geoPreds.Valid() && geoPreds.subregions == old(geoPreds.subregions)
      invariant AssignFrom(AssignState(geoPreds.regions, cache.entries, cache.lookups), locations, foundAs, geonames, AssignOne, i)
        == AssignFrom(start, locations, foundAs, geonames, AssignOne, 0)
    {
      var loc := locations[i];
      var geonamesResult: seq<Country>;
      if loc !in cache.entries {
        geonamesResult := geonames(loc);
        cache.entries := cache.entries[loc := geonamesResult];
        cache.lookups := cache.lookups + [loc];
      } else {
        geonamesResult := cache.entries[loc];
      }
      if i >= |foundAs| {
        // `found_as[i]` raises IndexError
        return true;
      }
      var locRegion := MostLikelyRegion(geonamesResult, geoPreds.regions.keys);
      if Unresolved(locRegion) {
        geoPreds.regions := Put(geoPreds.regions, loc, RegionEntry(foundAs[i], []));
      } else if locRegion.value !in geoPreds.regions.values {
        geoPreds.regions := Put(geoPreds.regions, locRegion.value, RegionEntry([locRegion.value], Flat(foundAs[i])));
      } else {
        var entry := geoPreds.regions.values[locRegion.value];
        if Names(foundAs[i]) !in entry.subregions {
          geoPreds.regions := Put(geoPreds.regions, locRegion.value,
                                  entry.(subregions := entry.subregions + [Names(foundAs[i])]));
        }
      }
      i := i + 1;
    }
    return false;
  }

  // ---------------------------------------------------------------------------
  // get_spacy_preds

  /** A spaCy entity: its text and its label. */
  datatype Entity = Entity(text: string, entLabel: string)

  /** `SPACY_LOCALITIES` */
  const SpacyLocalities: seq<string> := ["FAC", "GPE", "LOC"]

  /** `[ent for ent in ents if ent.label_ in SPACY_LOCALITIES]` */
  function LocalityEntities(ents: seq<Entity>): (r: seq<Entity>)
    ensures forall e :: e in r <==> e in ents && e.entLabel in SpacyLocalities
    decreases |ents|
  {
    if ents == [] then []
    else (if ents[0].entLabel in SpacyLocalities then [ents[0]] else []) + LocalityEntities(ents[1..])
  }

  /** The label filter keeps the order of the entities it keeps. */
  lemma {:induction false} LocalityEntitiesAppend(a: seq<Entity>, b: seq<Entity>)
    ensures LocalityEntities(a + b) == LocalityEntities(a) + LocalityEntities(b)
    decreases |a|
  {
    if a == [] {
      assert a + b == b;
    } else {
      assert (a + b)[1..] == a[1..] + b;
      LocalityEntitiesAppend(a[1..], b);
    }
  }

  /** The text is a region key or one of the names a region was found as. */
  predicate KnownRegionName(t: string, regions: Table<RegionEntry>) {
    exists k :: k in regions.values && t in regions.values[k].foundAs + [k]
  }

  /** The text is a subregion key or one of the names a subregion was found as. */
  predicate KnownSubregionName(t: string, subregions: Table<SubregionEntry>) {
    exists k :: k in subregions.values && t in subregions.values[k].foundAs + [k]
  }

  predicate KnownToGazetteer(t: string, regions: Table<RegionEntry>, subregions: Table<SubregionEntry>) {
    KnownRegionName(t, regions) || KnownSubregionName(t, subregions)
  }

  /** The locality entities that the gazetteer did not find, in order. */
  function UnknownLocalities(ents: seq<Entity>, regions: Table<RegionEntry>, subregions: Table<SubregionEntry>): (r: seq<Entity>)
    ensures forall e :: e in r <==> e in ents && !KnownToGazetteer(e.text, regions, subregions)
    decreases |ents|
  {
    if ents == [] then []
    else
      (if KnownToGazetteer(ents[0].text, regions, subregions) then [] else [ents[0]])
        + UnknownLocalities(ents[1..], regions, subregions)
  }

  /** The filter keeps the order: filtering a concatenation concatenates the filtered parts. */
  lemma {:induction false} UnknownLocalitiesAppend(a: seq<Entity>, b: seq<Entity>,
                                                   regions: Table<RegionEntry>, subregions: Table<SubregionEntry>)
    ensures UnknownLocalities(a + b, regions, subregions)
      == UnknownLocalities(a, regions, subregions) + UnknownLocalities(b, regions, subregions)
    decreases |a|
  {
    if a == [] {
      assert a + b == b;
    } else {
      assert (a + b)[1..] == a[1..] + b;
      UnknownLocalitiesAppend(a[1..], b, regions, subregions);
    }
  }

  /** A slot of `spacy_preds` after the loop: None for an entity the gazetteer found. */
  function Slot(e: Entity, regions: Table<RegionEntry>, subregions: Table<SubregionEntry>): Option<Entity> {
    if KnownToGazetteer(e.text, regions, subregions) then None else Some(e)
  }

  /** `list(filter(None, slots))` */
  function Present(slots: seq<Option<Entity>>): (r: seq<Entity>)
    decreases |slots|
  {
    if slots == [] then []
    else (if slots[0].Some? then [slots[0].value] else []) + Present(slots[1..])
  }

  lemma {:induction false} PresentSlots(ents: seq<Entity>, regions: Table<RegionEntry>, subregions: Table<SubregionEntry>)
    ensures Present(seq(|ents|, k requires 0 <= k < |ents| => Slot(ents[k], regions, subregions)))
      == UnknownLocalities(ents, regions, subregions)
    decreases |ents|
  {
    var slots := seq(|ents|, k requires 0 <= k < |ents| => Slot(ents[k], regions, subregions));
    if ents != [] {
      assert slots[1..] == seq(|ents[1..]|, k requires 0 <= k < |ents[1..]| => Slot(ents[1..][k], regions, subregions));
      PresentSlots(ents[1..], regions, subregions);
    }
  }

  /** `get_spacy_preds`, given spaCy's entities for the text. */
  method GetSpacyPreds(ents: seq<Entity>, geoPreds: GeoPreds) returns (r: seq<Entity>)
    requires geoPreds.Valid()
    ensures r == UnknownLocalities(LocalityEntities(ents), geoPreds.regions, geoPreds.subregions)
  {
    var regions, subregions := geoPreds.regions, geoPreds.subregions;
    var locs := LocalityEntities(ents);
    var spacyPreds: seq<Option<Entity>> := seq(|locs|, k requires 0 <= k < |locs| => Some(locs[k]));
    var i := 0;
    while i < |spacyPreds|
      invariant 0 <= i <= |spacyPreds| == |locs|
      invariant forall k :: 0 <= k < |locs| ==>
        spacyPreds[k] == if k < i then Slot(locs[k], regions, subregions) else Some(locs[k])
    {
      var found := false;
      var text := spacyPreds[i].value.text;
      var j := 0;
      while j < |regions.keys|
        invariant 0 <= j <= |regions.keys|
        invariant forall m :: 0 <= m < j ==> text !in regions.values[regions.keys[m]].foundAs + [regions.keys[m]]
      {
        var region := regions.keys[j];
        if text in regions.values[region].foundAs + [region] {
          spacyPreds := spacyPreds[i := None];
          found := true;
          break;
        }
        j := j + 1;
      }
      if found {
        i := i + 1;
        continue;
      }
      assert !KnownRegionName(text, regions) by {
        forall k | k in regions.values ensures text !in regions.values[k].foundAs + [k] {
          var m :| 0 <= m < |regions.keys| && regions.keys[m] == k;
        }
      }
      j := 0;
      while j < |subregions.keys|
        invariant 0 <= j <= |subregions.keys|
        invariant forall m :: 0 <= m < j ==> text !in subregions.values[subregions.keys[m]].foundAs + [subregions.keys[m]]
      {
        var subregion := subregions.keys[j];
        if text in subregions.values[subregion].foundAs + [subregion] {
          spacyPreds := spacyPreds[i := None];
          break;
        }
        j := j + 1;
      }
      if spacyPreds[i].Some? {
        assert !KnownSubregionName(text, subregions) by {
          forall k | k in subregions.values ensures text !in subregions.values[k].foundAs + [k] {
            var m :| 0 <= m < |subregions.keys| && subregions.keys[m] == k;
          }
        }
      }
      i := i + 1;
    }
    assert spacyPreds == seq(|locs|, k requires 0 <= k < |locs| => Slot(locs[k], regions, subregions));
    PresentSlots(locs, regions, subregions);
    r := Present(spacyPreds);
  }

  // ---------------------------------------------------------------------------
  // format_locality_string

  /** The IndexError of `s[0]` on an empty subregion entry. */
  datatype IndexError = IndexError

  /** `s[0]`: the first name of a names list, or the first character of a single name. */
  function FirstOf(item: SubregionItem): Option<string> {
    match item
    case Names(names) => if names == [] then None else Some(names[0])
    case Name(name) => if name == [] then None else Some([name[0]])
  }

  /** `[s[0] for s in subregions]`, None when one of them raises. */
  function FirstNames(items: seq<SubregionItem>): (r: Option<seq<string>>)
    ensures r.Some? <==> forall k :: 0 <= k < |items| ==> FirstOf(items[k]).Some?
    ensures r.Some? ==> |r.value| == |items| && forall k :: 0 <= k < |items| ==> Some(r.value[k]) == FirstOf(items[k])
    decreases |items|
  {
    if items == [] then Some([])
    else match (FirstOf(items[0]), FirstNames(items[1..]))
      case (Some(f), Some(rest)) => Some([f] + rest)
      case _ => None
  }

  /** `region + ' (' + ' | '.join(...) + ')'` */
  function RegionPart(region: string, entry: RegionEntry): Option<string> {
    match FirstNames(entry.subregions)
    case None => None
    case Some(firsts) => Some(region + " (" + Join(firsts, " | ") + ")")
  }

  /** The parts for the given regions, once a region with an empty subregion entry raises. */
  function RegionParts(t: Table<RegionEntry>, regions: seq<string>): (r: Result<seq<string>, IndexError>)
    requires forall k :: 0 <= k < |regions| ==> regions[k] in t.values
    ensures r.Ok? <==> forall k :: 0 <= k < |regions| ==> RegionPart(regions[k], t.values[regions[k]]).Some?
    ensures r.Ok? ==> (|r.value| == |regions|
                       && forall k :: 0 <= k < |regions| ==> Some(r.value[k]) == RegionPart(regions[k], t.values[regions[k]]))
    decreases |regions|
  {
    if regions == [] then Ok([])
    else
      var init := regions[..|regions| - 1];
      var last := regions[|regions| - 1];
      match RegionParts(t, init)
      case Err(e) => Err(e)
      case Ok(parts) =>
        match RegionPart(last, t.values[last])
        case None => Err(IndexError)
        case Some(p) => Ok(parts + [p])
  }

  /** An error in the regions seen so far is the error of the whole call. */
  lemma {:induction false} RegionPartsErrorPersists(t: Table<RegionEntry>, regions: seq<string>, j: nat)
    requires forall k :: 0 <= k < |regions| ==> regions[k] in t.values
    requires j <= |regions| && RegionParts(t, regions[..j]).Err?
    ensures RegionParts(t, regions) == RegionParts(t, regions[..j])
    decreases |regions| - j
  {
    if j < |regions| {
      var init := regions[..|regions| - 1];
      assert init[..j] == regions[..j];
      RegionPartsErrorPersists(t, init, j);
    } else {
      assert regions[..j] == regions;
    }
  }

  /** An entry `s` on which `s[0]` raises: an empty names list or an empty name. */
  predicate EmptyItem(item: SubregionItem) {
    item == Names([]) || item == Name("")
  }

  /**
   * The string `format_locality_string` returns, or the IndexError it raises:
   * it raises exactly when some region holds an empty subregion entry.
   */
  function LocalityString(t: Table<RegionEntry>): (r: Result<string, IndexError>)
    requires t.Valid()
    ensures r.Err? <==> exists region, k :: (region in t.values && 0 <= k < |t.values[region].subregions|
      && EmptyItem(t.values[region].subregions[k]))
  {
    var parts := RegionParts(t, t.keys);
    assert forall item :: FirstOf(item).None? <==> EmptyItem(item);
    assert forall region :: region in t.values ==> exists m :: 0 <= m < |t.keys| && t.keys[m] == region;
    match parts
    case Err(e) => Err(e)
    case Ok(parts) => Ok(Join(parts, "; "))
  }

  /** `format_locality_string` */
  method FormatLocalityString(localityPreds: Table<RegionEntry>) returns (r: Result<string, IndexError>)
    requires localityPreds.Valid()
    ensures r == LocalityString(localityPreds)
  {
    var locStrs: seq<string> := [];
    var i := 0;
    while i < |localityPreds.keys|
      invariant 0 <= i <= |localityPreds.keys|
      invariant RegionParts(localityPreds, localityPreds.keys[..i]) == Ok(locStrs)
    {
      var region := localityPreds.keys[i];
      assert localityPreds.keys[..i + 1][..i] == localityPreds.keys[..i];
      var part := RegionPart(region, localityPreds.values[region]);
      if part.None? {
        RegionPartsErrorPersists(localityPreds, localityPreds.keys, i + 1);
        return Err(IndexError);
      }
      locStrs := locStrs + [part.value];
      i := i + 1;
    }
    assert localityPreds.keys[..i] == localityPreds.keys;
    r := Ok(Join(locStrs, "; "));
  }

  /** A region without subregions renders as "R ()". */
  lemma NoSubregionsRender(region: string, foundAs: seq<string>)
    ensures RegionPart(region, RegionEntry(foundAs, [])) == Some(region + " ()")
  {
    assert FirstNames([]) == Some([]);
    assert Join([], " | ") == "";
    assert region + " (" + "" + ")" == region + " ()";
  }

  /** A single name stored flat renders as its first character. */
  lemma FlatNameRendersFirstChar(name: string)
    requires name != []
    ensures FirstOf(Name(name)) == Some([name[0]])
  {
  }

  // ---------------------------------------------------------------------------
  // An example run: later locations see the regions the earlier ones added.

  /** GeoNames for the example: Paris lies in France; Lyon's top hit is in Spain, its second in France. */
  function ExampleGeonames(loc: string): seq<Country> {
    if loc == "Paris" then [Some("France")] else [Some("Spain"), Some("France")]
  }

  /** The regions table after Paris: France, holding Paris's names list flat. */
  const ExampleAfterParis: Table<RegionEntry> := Table(["France"], map["France" := RegionEntry(["France"], [Name("Paris")])])

  /** The regions table after Lyon as well. */
  const ExampleAfterLyon: Table<RegionEntry> :=
    Table(["France"], map["France" := RegionEntry(["France"], [Name("Paris"), Names(["Lyon"])])])

  lemma ExampleParisPass()
    ensures AssignOne(Empty(), "Paris", [Some("France")], ["Paris"]) == ExampleAfterParis
  {
    assert LikelyRegions([Some("France")], []) == [];
    assert MostLikelyRegion([Some("France")], []) == Some("France");
    assert Flat(["Paris"]) == [Name("Paris")];
  }

  lemma ExampleLyonPass()
    ensures AssignOne(ExampleAfterParis, "Lyon", [Some("Spain"), Some("France")], ["Lyon"]) == ExampleAfterLyon
  {
    assert ExampleAfterParis.Valid();
    assert LikelyRegions([Some("France")], ["France"]) == [Some("France")];
    assert LikelyRegions([Some("Spain"), Some("France")], ["France"]) == [Some("France")];
    assert MostLikelyRegion([Some("Spain"), Some("France")], ["France"]) == Some("France");
    var entry := ExampleAfterParis.values["France"];
    assert Names(["Lyon"]) !in entry.subregions;
    assert entry.subregions + [Names(["Lyon"])] == [Name("Paris"), Names(["Lyon"])];
    assert ExampleAfterParis.values["France" := entry.(subregions := [Name("Paris"), Names(["Lyon"])])]
      == ExampleAfterLyon.values;
  }

  lemma ExampleFormat()
    ensures ExampleAfterLyon.Valid()
    ensures LocalityString(ExampleAfterLyon) == Ok("France (P | Lyon)")
  {
    assert FirstOf(Names(["Lyon"])) == Some("Lyon");
    assert FirstOf(Name("Paris")) == Some("P");
    assert [Names(["Lyon"])][1..] == [];
    assert FirstNames([]) == Some([]);
    assert ["Lyon"] + [] == ["Lyon"];
    assert FirstNames([Names(["Lyon"])]) == Some(["Lyon"]);
    assert [Name("Paris"), Names(["Lyon"])][1..] == [Names(["Lyon"])];
    assert ["P"] + ["Lyon"] == ["P", "Lyon"];
    assert FirstNames([Name("Paris"), Names(["Lyon"])]) == Some(["P", "Lyon"]);
    assert Join(["P", "Lyon"], " | ") == "P | Lyon";
    assert ExampleAfterLyon.values["France"].subregions == [Name("Paris"), Names(["Lyon"])];
    assert "France" + " (" + "P | Lyon" + ")" == "France (P | Lyon)";
    assert RegionPart("France", ExampleAfterLyon.values["France"]) == Some("France (P | Lyon)");
    assert ["France"][..0] == [] && ["France"][0] == "France";
    assert RegionParts(ExampleAfterLyon, []) == Ok([]);
    assert [] + ["France (P | Lyon)"] == ["France (P | Lyon)"];
    assert RegionParts(ExampleAfterLyon, ["France"]) == Ok(["France (P | Lyon)"]);
  }

  /**
   * Paris creates a France region holding Paris's names list flat; Lyon then
   * goes to France rather than to its top hit Spain because France is now a
   * known region; the formatter shows the flat entry as its first character.
   */
  lemma ExampleEarlierLocationsMatter()
    ensures var r := AssignFrom(AssignState(Empty(), map[], []), ["Paris", "Lyon"], [["Paris"], ["Lyon"]], ExampleGeonames, AssignOne, 0);
      && !r.1
      && r.0.regions == ExampleAfterLyon
      && r.0.lookups == ["Paris", "Lyon"]
      && LocalityString(r.0.regions) == Ok("France (P | Lyon)")
  {
    ExampleRun();
    ExampleFormat();
  }

  /** The two passes of the example, Paris then Lyon. */
  lemma ExampleRun()
    ensures var r := AssignFrom(AssignState(Empty(), map[], []), ["Paris", "Lyon"], [["Paris"], ["Lyon"]], ExampleGeonames, AssignOne, 0);
      && !r.1
      && r.0.regions == ExampleAfterLyon
      && r.0.lookups == ["Paris", "Lyon"]
  {
    var locs := ["Paris", "Lyon"];
    var foundAs := [["Paris"], ["Lyon"]];
    var s0 := AssignState(Empty<RegionEntry>(), map[], []);
    assert ExampleGeonames("Paris") == [Some("France")];
    assert ExampleGeonames("Lyon") == [Some("Spain"), Some("France")];
    var s1 := Pass(s0, "Paris", ["Paris"], ExampleGeonames, AssignOne);
    ExampleParisPass();
    assert s1 == AssignState(ExampleAfterParis, map["Paris" := [Some("France")]], ["Paris"]);
    var s2 := Pass(s1, "Lyon", ["Lyon"], ExampleGeonames, AssignOne);
    ExampleLyonPass();
    assert s2.regions == ExampleAfterLyon && s2.lookups == ["Paris", "Lyon"];
    assert AssignFrom(s0, locs, foundAs, ExampleGeonames, AssignOne, 0) == AssignFrom(s1, locs, foundAs, ExampleGeonames, AssignOne, 1);
    assert AssignFrom(s1, locs, foundAs, ExampleGeonames, AssignOne, 1) == AssignFrom(s2, locs, foundAs, ExampleGeonames, AssignOne, 2);
  }
}
