/**
 * New microsporidia species names and their hosts, as the names script
 * predicts them from a title and abstract. The regular-expression search for
 * species names and the removal of new-species indicators ("n. sp." and the
 * like) are parameters: the first is the list of match spans it found, the
 * second a function on strings; the TaxoNERD tagger is a parameter too.
 */
module MicrospAndHostNames {
  import opened Strings
  import HostFilter

  /** `match.span()`: the match covers `txt[start:end]`. */
  datatype Span = Span(start: nat, end: nat)

  /** Python's `s[a:b]` for non-negative bounds: both are clamped to the string. */
  function PySlice(s: string, a: nat, b: nat): (r: string)
    ensures b <= |s| && a <= b ==> r == s[a..b]
    ensures b > |s| && a <= |s| ==> r == s[a..]
    ensures a >= b || a >= |s| ==> r == ""
  {
    var hi := if b <= |s| then b else |s|;
    if a < hi then s[a..hi] else ""
  }

  /** The string the loop appends for one match. */
  function Candidate(txt: string, m: Span, stripIndicators: string -> string): string {
    Strip(stripIndicators(PySlice(txt, m.start, m.end + 1)))
  }

  /**
   * The strings the loop appends, one per match in match order: each match
   * widened by one character past its end, the indicators removed, the ends
   * stripped.
   */
  function Candidates(txt: string, matches: seq<Span>, stripIndicators: string -> string): (r: seq<string>)
    ensures |r| == |matches|
    ensures forall k :: 0 <= k < |matches| ==>
      r[k] == Strip(stripIndicators(PySlice(txt, matches[k].start, matches[k].end + 1)))
  {
    seq(|matches|, k requires 0 <= k < |matches| => Candidate(txt, matches[k], stripIndicators))
  }

  /** One more match gives one more candidate at the end. */
  lemma CandidatesSnoc(txt: string, matches: seq<Span>, i: nat, stripIndicators: string -> string)
    requires i < |matches|
    ensures Candidates(txt, matches[..i + 1], stripIndicators)
      == Candidates(txt, matches[..i], stripIndicators) + [Candidate(txt, matches[i], stripIndicators)]
  {
    assert forall k :: 0 <= k < i ==> matches[..i + 1][k] == matches[..i][k];
  }

  /**
   * The value `get_new_microsp_species` returns: the distinct candidates
   * joined by "; ", so every candidate occurs in it.
   */
  function MicrospSpecies(txt: string, matches: seq<Span>, stripIndicators: string -> string): (r: string)
    ensures forall k :: 0 <= k < |matches| ==> Contains(r, Candidates(txt, matches, stripIndicators)[k])
  {
    var c := Candidates(txt, matches, stripIndicators);
    var u := Unique(c);
    JoinHoldsMembers(u, "; ");
    assert forall k :: 0 <= k < |c| ==> c[k] in c;
    Join(u, "; ")
  }

  /** `get_new_microsp_species` */
  method GetNewMicrospSpecies(txt: string, matches: seq<Span>, stripIndicators: string -> string)
    returns (r: string)
    ensures r == MicrospSpecies(txt, matches, stripIndicators)
  {
    var newSp: seq<string> := [];
    var i := 0;
    while i < |matches|
      invariant 0 <= i <= |matches|
      invariant newSp == Candidates(txt, matches[..i], stripIndicators)
    {
      var m := matches[i];
      newSp := newSp + [Strip(stripIndicators(PySlice(txt, m.start, m.end + 1)))];
      CandidatesSnoc(txt, matches, i, stripIndicators);
      i := i + 1;
    }
    assert matches[..i] == matches;
    r := Join(Unique(newSp), "; ");
  }

  /** The slice takes the character right after the match when there is one. */
  lemma SliceTakesNextChar(txt: string, m: Span)
    requires m.start <= m.end < |txt|
    ensures PySlice(txt, m.start, m.end + 1) == txt[m.start..m.end] + [txt[m.end]]
  {
    assert txt[m.start..m.end + 1] == txt[m.start..m.end] + [txt[m.end]];
  }

  /** With no match, the result is the empty string. */
  lemma NoMatchNoSpecies(txt: string, stripIndicators: string -> string)
    ensures MicrospSpecies(txt, [], stripIndicators) == ""
  {
    assert Unique([]) == [];
  }

  predicate Trimmed(s: string) {
    s == [] || (!IsSpace(s[0]) && !IsSpace(s[|s| - 1]))
  }

  /** Every candidate is stripped. */
  lemma CandidatesTrimmed(txt: string, matches: seq<Span>, stripIndicators: string -> string)
    ensures forall k :: 0 <= k < |matches| ==> Trimmed(Candidates(txt, matches, stripIndicators)[k])
  {
    var c := Candidates(txt, matches, stripIndicators);
    forall k | 0 <= k < |matches| ensures Trimmed(c[k]) {
      var t := stripIndicators(PySlice(txt, matches[k].start, matches[k].end + 1));
      assert c[k] == Strip(t);
    }
  }

  /**
   * Splitting the result on "; " gives the distinct candidates back, each
   * stripped, when no candidate contains "; " itself.
   */
  lemma SpeciesRoundTrip(txt: string, matches: seq<Span>, stripIndicators: string -> string)
    requires matches != []
    requires forall k :: 0 <= k < |matches| ==> FreeOf(Candidates(txt, matches, stripIndicators)[k], "; ")
    ensures var names := Split(MicrospSpecies(txt, matches, stripIndicators), "; ");
      && Distinct(names)
      && (forall x :: x in names <==> x in Candidates(txt, matches, stripIndicators))
      && (forall k :: 0 <= k < |names| ==> Trimmed(names[k]))
  {
    var c := Candidates(txt, matches, stripIndicators);
    var u := Unique(c);
    assert c[0] in c;
    CandidatesTrimmed(txt, matches, stripIndicators);
    forall k | 0 <= k < |u| ensures FreeOf(u[k], "; ") && Trimmed(u[k]) {
      assert u[k] in c;
      var j :| 0 <= j < |c| && c[j] == u[k];
    }
    SplitJoin(u, "; ");
  }

  /** `predict_taxonerd_hosts(microsp, txt, taxonerd)` with the tagger's `text` column as `taxonerd(txt)`. */
  function PredictTaxonerdHosts(microsp: string, txt: string, taxonerd: string -> seq<string>): (r: string)
    ensures taxonerd(txt) == [] ==> r == ""
    ensures HostFilter.HostNames(microsp, taxonerd(txt)) == [] ==> r == ""
  {
    var texts := taxonerd(txt);
    if texts == [] then "" else Join(HostFilter.HostNames(microsp, texts), "; ")
  }

  /**
   * Splitting the result on "; " lists each tagger name that passes the
   * filter once, when no such name contains "; ".
   */
  lemma HostsRoundTrip(microsp: string, txt: string, taxonerd: string -> seq<string>)
    requires HostFilter.HostNames(microsp, taxonerd(txt)) != []
    requires forall x :: x in taxonerd(txt) ==> FreeOf(x, "; ")
    ensures var names := Split(PredictTaxonerdHosts(microsp, txt, taxonerd), "; ");
      && Distinct(names)
      && (forall x :: x in names <==> x in taxonerd(txt) && HostFilter.IsHostName(microsp, x))
  {
    var h := HostFilter.HostNames(microsp, taxonerd(txt));
    assert h[0] in h;
    forall k | 0 <= k < |h| ensures FreeOf(h[k], "; ") {
      assert h[k] in h;
    }
    SplitJoin(h, "; ");
  }
}
