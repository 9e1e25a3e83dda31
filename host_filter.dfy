/**
 * The host-candidate filter that both `predict_taxonerd_hosts` functions apply
 * to the names the TaxoNERD tagger returns: duplicates are dropped, and so is
 * every name that contains the parasite name or mentions "Microsp"/"microsp".
 */
module HostFilter {
  import opened Strings

  /** `re.search('[Mm]icrosp', s)` finds a match. */
  predicate MentionsMicrosp(s: string) {
    Contains(s, "Microsp") || Contains(s, "microsp")
  }

  /** The search succeeds exactly when 'M' or 'm' followed by "icrosp" occurs somewhere in s. */
  lemma MentionsMicrospSearch(s: string)
    ensures MentionsMicrosp(s) <==>
      exists i :: 0 <= i < |s| && (s[i] == 'M' || s[i] == 'm') && OccursAt(s, "icrosp", i + 1)
  {
    ContainsAt(s, "Microsp");
    ContainsAt(s, "microsp");
    forall i | 0 <= i < |s|
      ensures (OccursAt(s, "Microsp", i) || OccursAt(s, "microsp", i)) <==>
        ((s[i] == 'M' || s[i] == 'm') && OccursAt(s, "icrosp", i + 1))
    {
      if i + 7 <= |s| {
        var w := s[i..i + 7];
        assert w == [s[i]] + s[i + 1..i + 7];
        assert w == "Microsp" <==> s[i] == 'M' && s[i + 1..i + 7] == "icrosp";
        assert w == "microsp" <==> s[i] == 'm' && s[i + 1..i + 7] == "icrosp";
      }
    }
    forall i | OccursAt(s, "Microsp", i) || OccursAt(s, "microsp", i) ensures 0 <= i < |s| {
    }
  }

  /** The filter's test: `not parasite in s and not re.search('[Mm]icrosp', s)`. */
  predicate IsHostName(parasite: string, s: string) {
    !Contains(s, parasite) && !MentionsMicrosp(s)
  }

  /** `list(filter(lambda s: IsHostName(parasite, s), names))` */
  function KeepHostNames(parasite: string, names: seq<string>): (r: seq<string>)
    ensures |r| <= |names|
    ensures forall x :: x in r <==> x in names && IsHostName(parasite, x)
    ensures Distinct(names) ==> Distinct(r)
    decreases |names|
  {
    if names == [] then []
    else
      var rest := KeepHostNames(parasite, names[1..]);
      assert Distinct(names) ==> names[0] !in names[1..];
      if IsHostName(parasite, names[0]) then [names[0]] + rest else rest
  }

  /** The filter keeps its input's order: filtering a concatenation filters each part. */
  lemma {:induction false} KeepHostNamesAppend(parasite: string, a: seq<string>, b: seq<string>)
    ensures KeepHostNames(parasite, a + b) == KeepHostNames(parasite, a) + KeepHostNames(parasite, b)
    decreases |a|
  {
    if a == [] {
      assert a + b == b;
    } else {
      assert (a + b)[1..] == a[1..] + b;
      KeepHostNamesAppend(parasite, a[1..], b);
    }
  }

  /**
   * The names left by `filter(..., list(set(texts)))`: each tagger name that
   * passes the filter, once.
   */
  function HostNames(parasite: string, texts: seq<string>): (r: seq<string>)
    ensures Distinct(r)
    ensures forall x :: x in r <==> x in texts && IsHostName(parasite, x)
  {
    KeepHostNames(parasite, Unique(texts))
  }

  /** `'' in s` holds for every s, so an empty parasite name rejects every candidate. */
  lemma {:induction false} EmptyParasiteKeepsNone(names: seq<string>)
    ensures KeepHostNames("", names) == []
    decreases |names|
  {
    if names != [] {
      assert StartsWith(names[0], "");
      EmptyParasiteKeepsNone(names[1..]);
    }
  }

  lemma EmptyParasiteExcludesAll(texts: seq<string>)
    ensures HostNames("", texts) == []
  {
    EmptyParasiteKeepsNone(Unique(texts));
  }
}
