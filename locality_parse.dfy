/**
 * Reading a recorded locality string back into a dictionary from region
 * names to lists of subregion names. Entries are separated by ';' and have
 * the form "Region (subregion A | subregion B)". The parser's two regular
 * expressions are modelled as scanners over the entry text; as in Python's
 * `re` without flags, '.' matches every character except '\n'.
 */
module LocalityParse {
  import opened Wrappers
  import opened Strings
  import opened OrderedTable
  import Locality

  // ---------------------------------------------------------------------------
  // The regular expressions.

  /** Where the line holding position p ends: the first '\n' from p on, or the end of the text. */
  function LineEnd(s: string, p: nat): (e: nat)
    requires p <= |s|
    ensures p <= e <= |s|
    ensures forall k :: p <= k < e ==> s[k] != '\n'
    ensures e < |s| ==> s[e] == '\n'
    decreases |s| - p
  {
    if p == |s| || s[p] == '\n' then p else LineEnd(s, p + 1)
  }

  /**
   * The rest of `.+?(?= \()` once its first character is taken: the first
   * end q from here with " (" ahead, without passing a newline.
   */
  function LazyParen(s: string, q: nat): (r: Option<nat>)
    requires q <= |s|
    ensures r.Some? ==> q <= r.value && r.value + 1 < |s| && s[r.value] == ' ' && s[r.value + 1] == '('
    decreases |s| - q
  {
    if q + 1 < |s| && s[q] == ' ' && s[q + 1] == '(' then Some(q)
    else if q < |s| && s[q] != '\n' then LazyParen(s, q + 1)
    else None
  }

  /** `(?<=\) ).+|.+?(?= \()` tried at position p: the first alternative runs to the end of the line. */
  function RegionAt(s: string, p: nat): Option<string>
    requires p <= |s|
  {
    if p < |s| && s[p] != '\n' then
      if p >= 2 && s[p - 2] == ')' && s[p - 1] == ' ' then Some(s[p..LineEnd(s, p)])
      else match LazyParen(s, p + 1)
        case Some(q) => Some(s[p..q])
        case None => None
    else None
  }

  /** `re.search('((?<=\) ).+|.+?(?= \())', s)` from position p on: the text of the first match. */
  function SearchRegion(s: string, p: nat): Option<string>
    requires p <= |s|
    decreases |s| - p
  {
    match RegionAt(s, p)
    case Some(m) => Some(m)
    case None => if p == |s| then None else SearchRegion(s, p + 1)
  }

  /** The greedy `.+(?=\))` backing off from end q: the last ')' after p, at or before q. */
  function LastClose(s: string, p: nat, q: nat): (r: Option<nat>)
    requires p <= q <= |s|
    ensures r.Some? ==> p < r.value <= q && r.value < |s| && s[r.value] == ')'
    decreases q
  {
    if q <= p then None
    else if q < |s| && s[q] == ')' then Some(q)
    else LastClose(s, p, q - 1)
  }

  /** `(?<=\().+(?=\))` tried at position p. */
  function SubregionsAt(s: string, p: nat): Option<string>
    requires p <= |s|
  {
    if p >= 1 && p < |s| && s[p - 1] == '(' && s[p] != '\n' then
      match LastClose(s, p, LineEnd(s, p))
      case Some(q) => Some(s[p..q])
      case None => None
    else None
  }

  /** `re.search('(?<=\().+(?=\))', s)` from position p on: the text of the first match. */
  function SearchSubregions(s: string, p: nat): Option<string>
    requires p <= |s|
    decreases |s| - p
  {
    match SubregionsAt(s, p)
    case Some(m) => Some(m)
    case None => if p == |s| then None else SearchSubregions(s, p + 1)
  }

  // ---------------------------------------------------------------------------
  // get_locality_dict

  /** The region and the subregions of one entry. */
  function ParseEntry(loc: string): (r: (string, seq<string>))
    ensures SearchRegion(loc, 0).Some? ==> r.0 == SearchRegion(loc, 0).value
    ensures SearchRegion(loc, 0).None? ==> r.0 == loc
    ensures SearchSubregions(loc, 0).None? ==> r.1 == []
    ensures SearchSubregions(loc, 0).Some? ==> r.1 != [] && Join(r.1, " | ") == SearchSubregions(loc, 0).value
  {
    var region := match SearchRegion(loc, 0) case Some(m) => m case None => loc;
    var subregions := match SearchSubregions(loc, 0)
      case Some(m) => (JoinSplit(m, " | "); Split(m, " | "))
      case None => [];
    (region, subregions)
  }

  /** `[s.strip() for s in locs.split(';')]` */
  function StrippedEntries(locs: string): (r: seq<string>)
    ensures |r| == |Split(locs, ";")|
  {
    var parts := Split(locs, ";");
    seq(|parts|, k requires 0 <= k < |parts| => Strip(parts[k]))
  }

  /** The `(region, subregions)` pair of each entry, in order. */
  function ParseAll(entries: seq<string>): (r: seq<(string, seq<string>)>)
    ensures |r| == |entries|
  {
    seq(|entries|, k requires 0 <= k < |entries| => ParseEntry(entries[k]))
  }

  function ParsedEntries(locs: string): (r: seq<(string, seq<string>)>)
    ensures |r| == |StrippedEntries(locs)|
  {
    ParseAll(StrippedEntries(locs))
  }

  /** The dictionary built by assigning the entries in order. */
  function PutAll(es: seq<(string, seq<string>)>): (t: Table<seq<string>>)
    ensures t.Valid()
    decreases |es|
  {
    if es == [] then Empty()
    else Put(PutAll(es[..|es| - 1]), es[|es| - 1].0, es[|es| - 1].1)
  }

  /** The dictionary `get_locality_dict` returns. */
  function ParseLocalities(locs: string): Table<seq<string>> {
    PutFrom(Empty(), ParsedEntries(locs), 0)
  }

  /** Assigning the entries from the i-th on to the dictionary t, as the loop does. */
  function PutFrom(t: Table<seq<string>>, es: seq<(string, seq<string>)>, i: nat): (r: Table<seq<string>>)
    requires t.Valid() && i <= |es|
    decreases |es| - i
  {
    if i == |es| then t else PutFrom(Put(t, es[i].0, es[i].1), es, i + 1)
  }

  lemma PutAllStep(es: seq<(string, seq<string>)>, i: nat)
    requires i < |es|
    ensures PutAll(es[..i + 1]) == Put(PutAll(es[..i]), es[i].0, es[i].1)
  {
    assert es[..i + 1][..i] == es[..i];
  }

  /** Finishing the loop from any point gives the dictionary of all the entries. */
  lemma {:induction false} PutFromAll(es: seq<(string, seq<string>)>, i: nat)
    requires i <= |es|
    ensures PutFrom(PutAll(es[..i]), es, i) == PutAll(es)
    decreases |es| - i
  {
    if i == |es| {
      assert es[..i] == es;
    } else {
      PutAllStep(es, i);
      PutFromAll(es, i + 1);
    }
  }

  /** The dictionary the loop builds is the one of assigning all the entries. */
  lemma ParseLocalitiesAll(locs: string)
    ensures ParseLocalities(locs) == PutAll(ParsedEntries(locs))
  {
    var es := ParsedEntries(locs);
    assert es[..0] == [];
    PutFromAll(es, 0);
  }

  /** The two searches of the loop body of `get_locality_dict` on one entry. */
  method ParseLocation(loc: string) returns (region: string, subregions: seq<string>)
    ensures (region, subregions) == ParseEntry(loc)
  {
    var regionMatch := SearchRegion(loc, 0);
    if regionMatch.Some? {
      region := regionMatch.value;
    } else {
      region := loc;
    }
    var subregionsMatch := SearchSubregions(loc, 0);
    if subregionsMatch.Some? {
      subregions := Split(subregionsMatch.value, " | ");
    } else {
      subregions := [];
    }
  }

  /** `get_locality_dict` */
  method GetLocalityDict(locs: string) returns (locsDict: Table<seq<string>>)
    ensures locsDict == ParseLocalities(locs)
  {
    var entries := StrippedEntries(locs);
    ghost var parsed := ParseAll(entries);
    locsDict := Empty();
    var i := 0;
    while i < |entries|
      invariant 0 <= i <= |entries| == |parsed|
      invariant locsDict.Valid() && PutFrom(locsDict, parsed, i) == PutFrom(Empty(), parsed, 0)
    {
      var region, subregions := ParseLocation(entries[i]);
      locsDict := Put(locsDict, region, subregions);
      i := i + 1;
    }
  }

  // ---------------------------------------------------------------------------
  // The dictionary: keys in first-occurrence order, and the last entry for a region wins.

  function Regions(es: seq<(string, seq<string>)>): (r: seq<string>)
    ensures |r| == |es| && forall k :: 0 <= k < |es| ==> r[k] == es[k].0
  {
    seq(|es|, k requires 0 <= k < |es| => es[k].0)
  }

  /** The keys are the distinct regions in the order they first appear. */
  lemma {:induction false} PutAllKeys(es: seq<(string, seq<string>)>)
    ensures PutAll(es).keys == Unique(Regions(es))
    decreases |es|
  {
    if es != [] {
      var init := es[..|es| - 1];
      var last := es[|es| - 1].0;
      PutAllKeys(init);
      var t := PutAll(init);
      assert Regions(es)[..|es| - 1] == Regions(init);
      assert Regions(es)[|es| - 1] == last;
      assert last in t.values <==> last in Unique(Regions(init));
    }
  }

  /** A region's subregions come from the last entry that names the region. */
  lemma {:induction false} PutAllLast(es: seq<(string, seq<string>)>, j: nat)
    requires j < |es|
    requires forall m :: j < m < |es| ==> es[m].0 != es[j].0
    ensures es[j].0 in PutAll(es).values && PutAll(es).values[es[j].0] == es[j].1
    decreases |es|
  {
    if j < |es| - 1 {
      var init := es[..|es| - 1];
      PutAllLast(init, j);
    }
  }

  /** Later entries overwrite earlier ones with the same region. */
  lemma LastEntryWins(locs: string, j: nat)
    requires j < |ParsedEntries(locs)|
    requires forall m :: j < m < |ParsedEntries(locs)| ==> ParsedEntries(locs)[m].0 != ParsedEntries(locs)[j].0
    ensures var e := ParsedEntries(locs)[j];
      e.0 in ParseLocalities(locs).values && ParseLocalities(locs).values[e.0] == e.1
  {
    ParseLocalitiesAll(locs);
    PutAllLast(ParsedEntries(locs), j);
  }

  /** With distinct regions, the keys are the regions in entry order and each keeps its own subregions. */
  lemma {:induction false} PutAllDistinct(es: seq<(string, seq<string>)>)
    requires Distinct(Regions(es))
    ensures PutAll(es).keys == Regions(es)
    ensures forall k :: 0 <= k < |es| ==> es[k].0 in PutAll(es).values && PutAll(es).values[es[k].0] == es[k].1
    decreases |es|
  {
    if es != [] {
      var init := es[..|es| - 1];
      assert Regions(es) == Regions(init) + [es[|es| - 1].0];
      PutAllDistinct(init);
      forall k | 0 <= k < |es| ensures es[k].0 in PutAll(es).values && PutAll(es).values[es[k].0] == es[k].1 {
        if k < |es| - 1 {
          assert Regions(es)[k] != Regions(es)[|es| - 1];
        }
      }
    }
  }

  // ---------------------------------------------------------------------------
  // Entries of particular shapes.

  lemma {:induction false} RegionNoneWithoutParens(s: string, p: nat)
    requires p <= |s| && '(' !in s && ')' !in s
    ensures SearchRegion(s, p) == None
    decreases |s| - p
  {
    if p >= 2 && p < |s| {
      assert s[p - 2] in s;
    }
    if p < |s| {
      RegionNoneWithoutParens(s, p + 1);
    }
  }

  lemma {:induction false} SubregionsNoneWithoutParens(s: string, p: nat)
    requires p <= |s| && '(' !in s
    ensures SearchSubregions(s, p) == None
    decreases |s| - p
  {
    if p >= 1 && p < |s| {
      assert s[p - 1] in s;
    }
    if p < |s| {
      SubregionsNoneWithoutParens(s, p + 1);
    }
  }

  /** An entry without parentheses is a region with no subregions, named by the whole entry. */
  lemma EntryWithoutParens(loc: string)
    requires '(' !in loc && ')' !in loc
    ensures ParseEntry(loc) == (loc, [])
  {
    RegionNoneWithoutParens(loc, 0);
    SubregionsNoneWithoutParens(loc, 0);
  }

  /** The empty string parses to one region, "", with no subregions. */
  lemma EmptyLocalities()
    ensures ParseLocalities("") == Table([""], map["" := []])
  {
    assert Split("", ";") == [""];
    assert StrippedEntries("") == [""];
    EntryWithoutParens("");
    assert ParsedEntries("") == [("", [])];
    assert ParsedEntries("")[..0] == [];
  }

  /** A name that survives formatting: non-empty, trimmed, and free of ';', '(', ')', '|' and newlines. */
  predicate SafeName(n: string) {
    && n != []
    && !IsSpace(n[0]) && !IsSpace(n[|n| - 1])
    && forall c :: c in n ==> c != ';' && c != '(' && c != ')' && c != '|' && c != '\n'
  }

  /** `region + ' (' + ' | '.join(names) + ')'` */
  function RegionText(region: string, names: seq<string>): string {
    region + " (" + Join(names, " | ") + ")"
  }

  lemma {:induction false} JoinAvoids(names: seq<string>, sep: string, c: char)
    requires forall k :: 0 <= k < |names| ==> c !in names[k]
    requires c !in sep
    ensures c !in Join(names, sep)
    decreases |names|
  {
    if |names| > 1 {
      JoinAvoids(names[1..], sep, c);
    }
  }

  lemma JoinNonEmpty(names: seq<string>, sep: string)
    requires names != [] && names[0] != []
    ensures Join(names, sep) != []
  {
  }

  lemma {:induction false} LazyParenSkip(s: string, q: nat, q2: nat)
    requires q <= q2 <= |s|
    requires forall m :: q <= m < q2 ==> s[m] != '\n' && !(m + 1 < |s| && s[m] == ' ' && s[m + 1] == '(')
    ensures LazyParen(s, q) == LazyParen(s, q2)
    decreases q2 - q
  {
    if q < q2 {
      LazyParenSkip(s, q + 1, q2);
    }
  }

  /**
   * `re.search` for the region pattern finds the leftmost match: nothing
   * exactly when no position from p on matches, and otherwise the match at
   * the first position that does.
   */
  lemma {:induction false} SearchRegionLeftmost(s: string, p: nat)
    requires p <= |s|
    ensures SearchRegion(s, p).None? <==> forall q :: p <= q <= |s| ==> RegionAt(s, q).None?
    ensures SearchRegion(s, p).Some? ==> exists q :: (p <= q <= |s| && RegionAt(s, q) == SearchRegion(s, p)
      && forall q' :: p <= q' < q ==> RegionAt(s, q').None?)
    decreases |s| - p
  {
    if RegionAt(s, p).None? && p < |s| {
      SearchRegionLeftmost(s, p + 1);
      if SearchRegion(s, p).Some? {
        var q :| p + 1 <= q <= |s| && RegionAt(s, q) == SearchRegion(s, p + 1)
          && forall q' :: p + 1 <= q' < q ==> RegionAt(s, q').None?;
        assert forall q' :: p <= q' < q ==> RegionAt(s, q').None?;
      } else {
        assert forall q :: p <= q <= |s| ==> RegionAt(s, q).None?;
      }
    }
  }

  /** The same for the subregions pattern. */
  lemma {:induction false} SearchSubregionsLeftmost(s: string, p: nat)
    requires p <= |s|
    ensures SearchSubregions(s, p).None? <==> forall q :: p <= q <= |s| ==> SubregionsAt(s, q).None?
    ensures SearchSubregions(s, p).Some? ==> exists q :: (p <= q <= |s| && SubregionsAt(s, q) == SearchSubregions(s, p)
      && forall q' :: p <= q' < q ==> SubregionsAt(s, q').None?)
    decreases |s| - p
  {
    if SubregionsAt(s, p).None? && p < |s| {
      SearchSubregionsLeftmost(s, p + 1);
      if SearchSubregions(s, p).Some? {
        var q :| p + 1 <= q <= |s| && SubregionsAt(s, q) == SearchSubregions(s, p + 1)
          && forall q' :: p + 1 <= q' < q ==> SubregionsAt(s, q').None?;
        assert forall q' :: p <= q' < q ==> SubregionsAt(s, q').None?;
      } else {
        assert forall q :: p <= q <= |s| ==> SubregionsAt(s, q).None?;
      }
    }
  }

  lemma {:induction false} SearchSubregionsSkip(s: string, p: nat, p2: nat)
    requires p <= p2 <= |s|
    requires forall m :: p <= m < p2 ==> SubregionsAt(s, m) == None
    ensures SearchSubregions(s, p) == SearchSubregions(s, p2)
    decreases p2 - p
  {
    if p < p2 {
      SearchSubregionsSkip(s, p + 1, p2);
    }
  }

  /** In a formatted entry the region search stops at the " (" after the region name. */
  lemma RegionOfText(region: string, names: seq<string>)
    requires SafeName(region)
    ensures SearchRegion(RegionText(region, names), 0) == Some(region)
  {
    var s := RegionText(region, names);
    var n := |region|;
    assert s[n] == ' ' && s[n + 1] == '(';
    forall m | 0 <= m < n ensures s[m] == region[m] {
    }
    forall m | 1 <= m < n ensures s[m] != '\n' && !(m + 1 < |s| && s[m] == ' ' && s[m + 1] == '(') {
      assert region[m] in region;
      if m + 1 < n {
        assert region[m + 1] in region;
      }
    }
    assert region[0] in region;
    LazyParenSkip(s, 1, n);
    assert LazyParen(s, n) == Some(n);
    assert s[0..n] == region;
  }

  /** Without a newline from p on, the line runs to the end of the text. */
  lemma {:induction false} LineEndNoNewline(s: string, p: nat)
    requires p <= |s|
    requires forall k :: p <= k < |s| ==> s[k] != '\n'
    ensures LineEnd(s, p) == |s|
    decreases |s| - p
  {
    if p < |s| {
      LineEndNoNewline(s, p + 1);
    }
  }

  /** A region name followed by " (" holds no match of the subregion pattern. */
  lemma SubregionsSkipRegion(region: string, rest: string)
    requires SafeName(region)
    ensures var s := region + " (" + rest;
      SearchSubregions(s, 0) == SearchSubregions(s, |region| + 2)
  {
    var s := region + " (" + rest;
    var n := |region|;
    forall m | 0 <= m < n + 2 ensures SubregionsAt(s, m) == None {
      if 1 <= m <= n {
        assert s[m - 1] == region[m - 1];
        assert region[m - 1] in region;
      } else if m == n + 1 {
        assert s[m - 1] == ' ';
      }
    }
    SearchSubregionsSkip(s, 0, n + 2);
  }

  /** The joined names hold no newline and no ')'. */
  lemma JoinedNamesShape(names: seq<string>)
    requires forall k :: 0 <= k < |names| ==> SafeName(names[k])
    ensures '\n' !in Join(names, " | ") && ')' !in Join(names, " | ")
    ensures names != [] ==> Join(names, " | ") != []
  {
    JoinAvoids(names, " | ", '\n');
    JoinAvoids(names, " | ", ')');
    if names != [] {
      JoinNonEmpty(names, " | ");
    }
  }

  /** After the "(" the greedy search takes everything up to the closing ')' at the end. */
  lemma SubregionsAtInner(prefix: string, inner: string)
    requires prefix != [] && prefix[|prefix| - 1] == '('
    requires inner != [] && '\n' !in inner && ')' !in inner
    ensures SubregionsAt(prefix + inner + ")", |prefix|) == Some(inner)
  {
    var s := prefix + inner + ")";
    var p := |prefix|;
    forall k | p <= k < |s| ensures s[k] != '\n' {
      if k < |s| - 1 {
        assert s[k] == inner[k - p];
      }
    }
    LineEndNoNewline(s, p);
    assert s[p] == inner[0];
    assert LastClose(s, p, |s|) == LastClose(s, p, |s| - 1);
    assert s[p..|s| - 1] == inner;
  }

  /** With nothing between the parentheses there is no match after the "(". */
  lemma SubregionsAtEmpty(prefix: string)
    requires prefix != [] && prefix[|prefix| - 1] == '('
    ensures var s := prefix + ")";
      SearchSubregions(s, |prefix|) == None
  {
    var s := prefix + ")";
    var p := |prefix|;
    assert s[p] == ')';
    LineEndNoNewline(s, p);
    assert SubregionsAt(s, p) == None;
    assert SubregionsAt(s, p + 1) == None;
  }

  /** In a formatted entry the subregion search finds the joined names, or nothing when there are none. */
  lemma SubregionsOfText(region: string, names: seq<string>)
    requires SafeName(region)
    requires forall k :: 0 <= k < |names| ==> SafeName(names[k])
    ensures SearchSubregions(RegionText(region, names), 0)
      == if names == [] then None else Some(Join(names, " | "))
  {
    var inner := Join(names, " | ");
    var prefix := region + " (";
    var s := RegionText(region, names);
    assert s == region + " (" + (inner + ")");
    SubregionsSkipRegion(region, inner + ")");
    assert s == prefix + inner + ")" && |prefix| == |region| + 2;
    assert SearchSubregions(s, 0) == SearchSubregions(s, |prefix|);
    JoinedNamesShape(names);
    if names == [] {
      assert s == prefix + ")";
      SubregionsAtEmpty(prefix);
    } else {
      SubregionsAtInner(prefix, inner);
      assert SearchSubregions(s, |prefix|) == Some(inner);
    }
  }

  /** "R (a | b)" parses to R with [a, b], and "R ()" to R with no subregions. */
  lemma ParseRegionText(region: string, names: seq<string>)
    requires SafeName(region)
    requires forall k :: 0 <= k < |names| ==> SafeName(names[k])
    ensures ParseEntry(RegionText(region, names)) == (region, names)
  {
    RegionOfText(region, names);
    SubregionsOfText(region, names);
    if names != [] {
      forall k | 0 <= k < |names| ensures FreeOf(names[k], " | ") {
        assert " | "[1] == '|';
      }
      SplitJoin(names, " | ");
    }
  }

  // ---------------------------------------------------------------------------
  // The round trip with format_locality_string.

  /** Splitting "c + p0; p1; ...; pn" on ';' gives c + p0, then each later part with its leading space. */
  lemma {:induction false} SplitSemicolonJoin(c: string, parts: seq<string>)
    requires parts != [] && ';' !in c
    requires forall k :: 0 <= k < |parts| ==> ';' !in parts[k]
    ensures Split(c + Join(parts, "; "), ";")
      == [c + parts[0]] + seq(|parts| - 1, k requires 0 <= k < |parts| - 1 => " " + parts[k + 1])
    decreases |parts|
  {
    var a := c + parts[0];
    assert ';' !in a;
    if |parts| == 1 {
      FreeOfNoMatch(a, "", ";");
      SplitWhole(a, ";");
    } else {
      var rest := Join(parts[1..], "; ");
      assert c + Join(parts, "; ") == a + ";" + (" " + rest);
      FreeOfNoMatch(a, " " + rest, ";");
      SplitConcat(a, " " + rest, ";");
      SplitSemicolonJoin(" ", parts[1..]);
    }
  }

  /** Stripping the pieces of a "; "-join gives back trimmed parts that hold no ';'. */
  lemma StrippedJoin(parts: seq<string>)
    requires parts != []
    requires forall k :: 0 <= k < |parts| ==> (';' !in parts[k] && parts[k] != []
                                               && !IsSpace(parts[k][0]) && !IsSpace(parts[k][|parts[k]| - 1]))
    ensures StrippedEntries(Join(parts, "; ")) == parts
  {
    SplitSemicolonJoin("", parts);
    assert "" + Join(parts, "; ") == Join(parts, "; ");
    var pieces := Split(Join(parts, "; "), ";");
    forall k | 0 <= k < |parts| ensures Strip(pieces[k]) == parts[k] {
      if k == 0 {
        assert pieces[0] == "" + parts[0] == parts[0];
        StripNoop(parts[0]);
      } else {
        assert pieces[k] == " " + parts[k];
        StripAfterSpace(parts[k]);
      }
    }
  }

  /** A formatted region part, when its names are safe, holds no ';' and is trimmed. */
  lemma RegionTextShape(region: string, names: seq<string>)
    requires SafeName(region)
    requires forall k :: 0 <= k < |names| ==> SafeName(names[k])
    ensures var s := RegionText(region, names);
      ';' !in s && s != [] && !IsSpace(s[0]) && !IsSpace(s[|s| - 1])
  {
    JoinAvoids(names, " | ", ';');
    assert region[0] in region;
  }

  /** The formatted entries of regions with the given names. */
  function RegionTexts(regions: seq<string>, names: seq<seq<string>>): (r: seq<string>)
    requires |names| == |regions|
    ensures |r| == |regions| && forall k :: 0 <= k < |regions| ==> r[k] == RegionText(regions[k], names[k])
  {
    seq(|regions|, k requires 0 <= k < |regions| => RegionText(regions[k], names[k]))
  }

  /** Parsing the "; "-join of formatted entries with distinct, safe regions and safe names gives them back. */
  lemma ParseRegionTexts(regions: seq<string>, names: seq<seq<string>>)
    requires regions != [] && |names| == |regions| && Distinct(regions)
    requires forall k :: 0 <= k < |regions| ==> SafeName(regions[k])
    requires forall k, m :: 0 <= k < |regions| && 0 <= m < |names[k]| ==> SafeName(names[k][m])
    ensures var d := ParseLocalities(Join(RegionTexts(regions, names), "; "));
      && d.keys == regions
      && forall k :: 0 <= k < |regions| ==> regions[k] in d.values && d.values[regions[k]] == names[k]
  {
    var parts := RegionTexts(regions, names);
    forall k | 0 <= k < |regions|
      ensures ';' !in parts[k] && parts[k] != [] && !IsSpace(parts[k][0]) && !IsSpace(parts[k][|parts[k]| - 1])
    {
      RegionTextShape(regions[k], names[k]);
    }
    var s := Join(parts, "; ");
    StrippedJoin(parts);
    var es := ParsedEntries(s);
    forall k | 0 <= k < |regions| ensures es[k] == (regions[k], names[k]) {
      ParseRegionText(regions[k], names[k]);
    }
    assert Regions(es) == regions;
    PutAllDistinct(es);
    ParseLocalitiesAll(s);
  }

  /** `[s[0] for s in subregions]` of a region of the table, when none of them raises. */
  function NamesOf(t: Table<Locality.RegionEntry>, region: string): seq<string>
    requires region in t.values && Locality.FirstNames(t.values[region].subregions).Some?
  {
    Locality.FirstNames(t.values[region].subregions).value
  }

  /** The names of each region of the table, in key order. */
  function KeyNames(t: Table<Locality.RegionEntry>): (r: seq<seq<string>>)
    requires t.Valid()
    requires forall k :: k in t.values ==> Locality.FirstNames(t.values[k].subregions).Some?
    ensures |r| == |t.keys| && forall k :: 0 <= k < |t.keys| ==> r[k] == NamesOf(t, t.keys[k])
  {
    seq(|t.keys|, k requires 0 <= k < |t.keys| => NamesOf(t, t.keys[k]))
  }

  /** With no empty subregion entry, formatting joins the formatted entries of the keys. */
  lemma FormattedTexts(t: Table<Locality.RegionEntry>)
    requires t.Valid()
    requires forall k :: k in t.values ==> Locality.FirstNames(t.values[k].subregions).Some?
    ensures Locality.LocalityString(t) == Ok(Join(RegionTexts(t.keys, KeyNames(t)), "; "))
  {
    var keys := t.keys;
    assert forall k :: 0 <= k < |keys| ==> keys[k] in t.values;
    var r := Locality.RegionParts(t, keys);
    assert r.Ok?;
    assert r.value == RegionTexts(keys, KeyNames(t));
  }

  /**
   * Formatting a regions table and parsing the string gives back its keys in
   * order, each with the first names of its subregions, when the table is not
   * empty and every region name and first name is safe.
   */
  lemma LocalityRoundTrip(t: Table<Locality.RegionEntry>)
    requires t.Valid() && t.keys != []
    requires forall k :: k in t.values ==> SafeName(k)
    requires forall k :: k in t.values ==> Locality.FirstNames(t.values[k].subregions).Some?
    requires forall k, m :: k in t.values && 0 <= m < |Locality.FirstNames(t.values[k].subregions).value| ==>
      SafeName(Locality.FirstNames(t.values[k].subregions).value[m])
    ensures Locality.LocalityString(t).Ok?
    ensures var d := ParseLocalities(Locality.LocalityString(t).value);
      && d.keys == t.keys
      && forall k :: k in t.values ==> k in d.values && d.values[k] == Locality.FirstNames(t.values[k].subregions).value
  {
    var names := KeyNames(t);
    var text := Join(RegionTexts(t.keys, names), "; ");
    FormattedTexts(t);
    assert forall k :: 0 <= k < |t.keys| ==> SafeName(t.keys[k]) by {
      assert forall k :: 0 <= k < |t.keys| ==> t.keys[k] in t.values;
    }
    forall k, m | 0 <= k < |t.keys| && 0 <= m < |names[k]| ensures SafeName(names[k][m]) {
      assert t.keys[k] in t.values;
    }
    assert Distinct(t.keys);
    ParseRegionTexts(t.keys, names);
    var d := ParseLocalities(text);
    forall k | k in t.values ensures k in d.values && d.values[k] == NamesOf(t, k) {
      var m :| 0 <= m < |t.keys| && t.keys[m] == k;
      assert names[m] == NamesOf(t, k);
    }
  }
}
