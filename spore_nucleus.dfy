/**
 * Spore nucleus counts: every sentence that names a nucleus term and no
 * immature spore stage gives one "<count> (<spore name>)" entry. The spaCy
 * pipeline (sentence splitting, the phrase matchers, lemmas) is left to the
 * caller: each sentence arrives with the texts of the tokens the nucleus
 * matcher found, whether the immature-spore matcher found anything, and the
 * lemmas of the tokens the spore matcher found, each in match order.
 */
module SporeNucleus {
  import opened Wrappers
  import opened Strings

  /** `nucleus_terms` */
  const NucleusTerms: seq<string> := [
    "nucleus", "nuclei", "unikaryotic", "unikariotic", "unicaryotic",
    "unicariotic", "unikaryon", "unikarion", "unicaryon", "unicarion",
    "monokaryotic", "monokariotic", "monocaryotic", "monocariotic",
    "monokaryon", "monokarion", "monocaryon", "monocarion",
    "diplokaryotic", "diplokariotic", "diplocaryotic", "diplocariotic",
    "diplokaryon", "diplokarion", "diplocaryon", "diplocarion",
    "uninucleate", "mononucleate", "binucleate", "uninuclear",
    "binuclear"]

  /** `nucleus_count` */
  const NucleusCount: map<string, nat> := map[
    "nucleus" := 1, "nuclei" := 2, "unikaryotic" := 1, "unikariotic" := 1,
    "unicaryotic" := 1, "unicariotic" := 1, "unikaryon" := 1, "unikarion" := 1,
    "unicaryon" := 1, "unicarion" := 1, "monokaryotic" := 1, "monokariotic" := 1,
    "monocaryotic" := 1, "monocariotic" := 1, "monokaryon" := 1, "monokarion" := 1,
    "monocaryon" := 1, "monocarion" := 1, "diplokaryotic" := 2,
    "diplokariotic" := 2, "diplocaryotic" := 2, "diplocariotic" := 2,
    "diplokaryon" := 2, "diplokarion" := 2, "diplocaryon" := 2, "diplocarion" := 2,
    "uninucleate" := 1, "mononucleate" := 1, "binucleate" := 2, "uninuclear" := 1,
    "binuclear" := 2]

  /** The terms that describe two nuclei: "nuclei" and the diplo- and bi- forms. */
  predicate TwoNuclei(term: string) {
    || term == "nuclei"
    || (|term| >= 5 && term[0] == 'd' && term[1] == 'i' && term[2] == 'p' && term[3] == 'l' && term[4] == 'o')
    || (|term| >= 2 && term[0] == 'b' && term[1] == 'i')
  }

  /** The count table has exactly the nucleus terms as keys. */
  lemma CountTableKeys()
    ensures forall t :: t in NucleusCount <==> t in NucleusTerms
  {
  }

  /** The count table gives 2 for the terms that describe two nuclei and 1 for the others. */
  lemma CountTableValues()
    ensures forall t :: t in NucleusCount ==> NucleusCount[t] == (if TwoNuclei(t) then 2 else 1)
  {
  }

  /** A sentence, as the three matchers see it. */
  datatype Sentence = Sentence(nucleusTokens: seq<string>, hasImmatureTerm: bool, sporeLemmas: seq<string>)

  /** `nucleus_matcher(sent) and not immature_spore_matcher(sent)` */
  predicate HasNucleusData(sent: Sentence) {
    sent.nucleusTokens != [] && !sent.hasImmatureTerm
  }

  /** `nucleus_sents` */
  function NucleusSentences(sents: seq<Sentence>): (r: seq<Sentence>)
    ensures |r| <= |sents|
    ensures forall k :: 0 <= k < |r| ==> HasNucleusData(r[k])
    ensures forall s :: s in r <==> s in sents && HasNucleusData(s)
    decreases |sents|
  {
    if sents == [] then []
    else if HasNucleusData(sents[0]) then [sents[0]] + NucleusSentences(sents[1..])
    else NucleusSentences(sents[1..])
  }

  /** The filter keeps the order: filtering a concatenation concatenates the filtered parts. */
  lemma {:induction false} NucleusSentencesAppend(a: seq<Sentence>, b: seq<Sentence>)
    ensures NucleusSentences(a + b) == NucleusSentences(a) + NucleusSentences(b)
    decreases |a|
  {
    if a == [] {
      assert a + b == b;
    } else {
      assert (a + b)[1..] == a[1..] + b;
      NucleusSentencesAppend(a[1..], b);
    }
  }

  /** The spore name: the lemma of the first spore match, "normal spore" when there is none or it is "spore". */
  function SporeName(sent: Sentence): (name: string)
    ensures sent.sporeLemmas == [] ==> name == "normal spore"
    ensures sent.sporeLemmas != [] && sent.sporeLemmas[0] != "spore" ==> name == sent.sporeLemmas[0]
    ensures name != "spore"
  {
    if sent.sporeLemmas == [] || sent.sporeLemmas[0] == "spore" then "normal spore"
    else sent.sporeLemmas[0]
  }

  /** The KeyError of `nucleus_count[nucleus_term]`. */
  datatype KeyError = KeyError(key: string)

  /** `nucleus_term`: the first nucleus match, lower-cased. */
  function NucleusTerm(sent: Sentence): string
    requires sent.nucleusTokens != []
  {
    Lower(sent.nucleusTokens[0])
  }

  /** `(spore_name, num_nuclei)` for each sentence, stopping at the first term the table lacks. */
  function SporeNucleusInfo(sents: seq<Sentence>): (r: Result<seq<(string, string)>, KeyError>)
    requires forall k :: 0 <= k < |sents| ==> sents[k].nucleusTokens != []
    ensures r.Ok? ==> |r.value| == |sents|
    ensures r.Ok? <==> forall k :: 0 <= k < |sents| ==> NucleusTerm(sents[k]) in NucleusCount
    ensures r.Ok? ==> forall k :: 0 <= k < |sents| ==>
      r.value[k] == (SporeName(sents[k]), NatToString(NucleusCount[NucleusTerm(sents[k])]))
    decreases |sents|
  {
    if sents == [] then Ok([])
    else
      var init := sents[..|sents| - 1];
      var last := sents[|sents| - 1];
      var term := NucleusTerm(last);
      match SporeNucleusInfo(init)
      case Err(e) => Err(e)
      case Ok(prev) =>
        if term in NucleusCount then Ok(prev + [(SporeName(last), NatToString(NucleusCount[term]))])
        else Err(KeyError(term))
  }

  /** `f"{num} ({name})"` */
  function Entry(info: (string, string)): string {
    info.1 + " (" + info.0 + ")"
  }

  function Entries(info: seq<(string, string)>): (r: seq<string>)
    ensures |r| == |info|
    ensures forall k :: 0 <= k < |info| ==> r[k] == Entry(info[k])
  {
    seq(|info|, k requires 0 <= k < |info| => Entry(info[k]))
  }

  /**
   * The value `predict_spore_nucleus` returns, or the KeyError it raises: it
   * raises exactly when a sentence with nucleus data has a term the count
   * table lacks.
   */
  function SporeNucleusText(sents: seq<Sentence>): (r: Result<string, KeyError>)
    ensures r.Ok? <==> forall s :: s in sents && HasNucleusData(s) ==> NucleusTerm(s) in NucleusCount
  {
    var kept := NucleusSentences(sents);
    assert forall s :: s in kept <==> exists k :: 0 <= k < |kept| && kept[k] == s;
    match SporeNucleusInfo(kept)
    case Err(e) => Err(e)
    case Ok(info) => Ok(Join(Entries(info), "; "))
  }

  /** `predict_spore_nucleus` on the matched sentences of a text. */
  method PredictSporeNucleus(sents: seq<Sentence>) returns (r: Result<string, KeyError>)
    ensures r == SporeNucleusText(sents)
  {
    var nucleusSents := NucleusSentences(sents);
    var sporeNucleusInfo: seq<(string, string)> := [];
    var i := 0;
    while i < |nucleusSents|
      invariant 0 <= i <= |nucleusSents|
      invariant SporeNucleusInfo(nucleusSents[..i]) == Ok(sporeNucleusInfo)
    {
      var sent := nucleusSents[i];
      var sporeName: string;
      if sent.sporeLemmas == [] {
        sporeName := "normal spore";
      } else {
        sporeName := sent.sporeLemmas[0];
        if sporeName == "spore" {
          sporeName := "normal spore";
        }
      }
      assert sporeName == SporeName(sent);
      var nucleusTerm := Lower(sent.nucleusTokens[0]);
      assert nucleusTerm == NucleusTerm(sent);
      if nucleusTerm !in NucleusCount {
        TextErrorAt(sents, i);
        return Err(KeyError(nucleusTerm));
      }
      var numNuclei := NatToString(NucleusCount[nucleusTerm]);
      InfoStep(nucleusSents, i);
      sporeNucleusInfo := sporeNucleusInfo + [(sporeName, numNuclei)];
      i := i + 1;
    }
    assert nucleusSents[..i] == nucleusSents;
    r := Ok(Join(Entries(sporeNucleusInfo), "; "));
  }

  /** One more sentence: the error so far, or one more row, or the KeyError of its term. */
  lemma InfoStep(sents: seq<Sentence>, i: nat)
    requires forall k :: 0 <= k < |sents| ==> sents[k].nucleusTokens != []
    requires i < |sents|
    ensures SporeNucleusInfo(sents[..i + 1]) == match SporeNucleusInfo(sents[..i])
      case Err(e) => Err(e)
      case Ok(prev) =>
        if NucleusTerm(sents[i]) in NucleusCount
        then Ok(prev + [(SporeName(sents[i]), NatToString(NucleusCount[NucleusTerm(sents[i])]))])
        else Err(KeyError(NucleusTerm(sents[i])))
  {
    assert sents[..i + 1][..i] == sents[..i];
  }

  /** An error in the sentences seen so far is the error of the whole call. */
  lemma {:induction false} InfoErrorPersists(sents: seq<Sentence>, j: nat)
    requires forall k :: 0 <= k < |sents| ==> sents[k].nucleusTokens != []
    requires j <= |sents| && SporeNucleusInfo(sents[..j]).Err?
    ensures SporeNucleusInfo(sents) == SporeNucleusInfo(sents[..j])
    decreases |sents| - j
  {
    if j < |sents| {
      var s := sents[..|sents| - 1];
      assert s[..j] == sents[..j];
      InfoErrorPersists(s, j);
    } else {
      assert sents[..j] == sents;
    }
  }

  /** The first sentence with nucleus data whose term the table lacks gives the KeyError of the whole call. */
  lemma TextErrorAt(sents: seq<Sentence>, i: nat)
    requires i < |NucleusSentences(sents)|
    requires SporeNucleusInfo(NucleusSentences(sents)[..i]).Ok?
    requires NucleusTerm(NucleusSentences(sents)[i]) !in NucleusCount
    ensures SporeNucleusText(sents) == Err(KeyError(NucleusTerm(NucleusSentences(sents)[i])))
  {
    var kept := NucleusSentences(sents);
    InfoStep(kept, i);
    InfoErrorPersists(kept, i + 1);
  }

  /** A text without any sentence holding nucleus data gives the empty string. */
  lemma {:induction false} NoNucleusSentences(sents: seq<Sentence>)
    requires forall k :: 0 <= k < |sents| ==> !HasNucleusData(sents[k])
    ensures NucleusSentences(sents) == []
    decreases |sents|
  {
    if sents != [] {
      NoNucleusSentences(sents[1..]);
    }
  }

  lemma NoNucleusDataGivesEmpty(sents: seq<Sentence>)
    requires forall k :: 0 <= k < |sents| ==> !HasNucleusData(sents[k])
    ensures SporeNucleusText(sents) == Ok("")
  {
    NoNucleusSentences(sents);
  }

  /** An entry holds no ';' when the spore name holds none. */
  lemma EntryFree(name: string, n: nat)
    requires ';' !in name
    ensures FreeOf(Entry((name, NatToString(n))), "; ")
  {
    var d := NatToString(n);
    var e := Entry((name, d));
    assert forall m :: 0 <= m < |d| ==> IsDigit(d[m]);
    forall m | 0 <= m < |e| ensures e[m] != ';' {
      if m < |d| {
        assert e[m] == d[m];
      } else if m < |d| + 2 {
        assert e[m] == " ("[m - |d|];
      } else if m < |d| + 2 + |name| {
        assert e[m] == name[m - |d| - 2];
      } else {
        assert e[m] == ')';
      }
    }
  }

  /**
   * When every first nucleus match is one of the terms and no kept
   * sentence's spore name holds ';', splitting the result on "; " gives one
   * "<count> (<name>)" per sentence with nucleus data, in order, with a
   * count of 1 or 2.
   */
  lemma OneEntryPerNucleusSentence(sents: seq<Sentence>)
    requires NucleusSentences(sents) != []
    requires forall k :: 0 <= k < |NucleusSentences(sents)| ==>
      NucleusTerm(NucleusSentences(sents)[k]) in NucleusTerms
    requires forall k :: 0 <= k < |NucleusSentences(sents)| ==> ';' !in SporeName(NucleusSentences(sents)[k])
    ensures SporeNucleusText(sents).Ok?
    ensures var kept := NucleusSentences(sents);
      var entries := Split(SporeNucleusText(sents).value, "; ");
      && |entries| == |kept|
      && forall k :: 0 <= k < |kept| ==>
        var n := NucleusCount[NucleusTerm(kept[k])];
        && (n == 1 || n == 2)
        && entries[k] == NatToString(n) + " (" + SporeName(kept[k]) + ")"
  {
    var kept := NucleusSentences(sents);
    CountTableKeys();
    CountTableValues();
    var info := SporeNucleusInfo(kept).value;
    var entries := Entries(info);
    forall k | 0 <= k < |entries| ensures FreeOf(entries[k], "; ") {
      EntryFree(SporeName(kept[k]), NucleusCount[NucleusTerm(kept[k])]);
    }
    SplitJoin(entries, "; ");
  }
}
