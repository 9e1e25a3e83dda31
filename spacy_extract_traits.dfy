/**
 * Text clean-up and host prediction from the trait-prediction script:
 * `clean_text` turns tabs and newlines into spaces, squeezes runs of spaces
 * and trims the ends; `predict_taxonerd_hosts` takes "<parasite> ::: <text>",
 * runs the TaxoNERD tagger on the text and keeps the host candidates.
 */
module SpacyExtractTraits {
  import opened Wrappers
  import opened Strings
  import HostFilter
  import MicrospAndHostNames

  /** `s.replace(c, d)` for single characters. */
  function ReplaceChar(s: string, c: char, d: char): (r: string)
    ensures |r| == |s|
    ensures forall i :: 0 <= i < |s| ==> r[i] == if s[i] == c then d else s[i]
  {
    seq(|s|, i requires 0 <= i < |s| => if s[i] == c then d else s[i])
  }

  /** No two spaces stand next to each other. */
  predicate NoDoubleSpace(s: string) {
    forall i :: 0 <= i < |s| - 1 ==> !(s[i] == ' ' && s[i + 1] == ' ')
  }

  /**
   * `re.sub(' +', ' ', s)`: every run of spaces becomes one space. Dropping
   * each space that is followed by another space comes to the same.
   */
  function SqueezeSpaces(s: string): (r: string)
    ensures |s| > 0 ==> |r| > 0 && r[0] == s[0]
    ensures forall c :: c in r ==> c in s
    ensures NoDoubleSpace(r)
    decreases |s|
  {
    if |s| <= 1 then s
    else if s[0] == ' ' && s[1] == ' ' then SqueezeSpaces(s[1..])
    else [s[0]] + SqueezeSpaces(s[1..])
  }

  /** `clean_text` */
  function CleanText(txt: string): (r: string)
    ensures r == [] || (!IsSpace(r[0]) && !IsSpace(r[|r| - 1]))
  {
    Strip(SqueezeSpaces(ReplaceChar(ReplaceChar(txt, '\t', ' '), '\n', ' ')))
  }

  // ---------------------------------------------------------------------------
  // Reference definition: the words of the text joined by single spaces.

  predicate IsBlank(c: char) {
    c == ' ' || c == '\t' || c == '\n'
  }

  /** The only whitespace characters of s (in the sense of `str.strip`) are space, tab and newline. */
  predicate OnlyBlankWhitespace(s: string) {
    forall i :: 0 <= i < |s| ==> IsSpace(s[i]) ==> IsBlank(s[i])
  }

  /** The length of the word s starts with. */
  function WordLength(s: string): (n: nat)
    ensures n <= |s|
    ensures forall i :: 0 <= i < n ==> !IsBlank(s[i])
    ensures n < |s| ==> IsBlank(s[n])
    decreases |s|
  {
    if s == [] || IsBlank(s[0]) then 0 else 1 + WordLength(s[1..])
  }

  /** The words of s: its maximal runs of characters other than space, tab and newline. */
  function Words(s: string): seq<string>
    decreases |s|
  {
    if s == [] then []
    else if IsBlank(s[0]) then Words(s[1..])
    else
      var n := WordLength(s);
      [s[..n]] + Words(s[n..])
  }

  lemma {:induction false} WordLengthUnique(s: string, n: nat)
    requires n <= |s|
    requires forall i :: 0 <= i < n ==> !IsBlank(s[i])
    requires n < |s| ==> IsBlank(s[n])
    ensures WordLength(s) == n
    decreases n
  {
    if n > 0 {
      WordLengthUnique(s[1..], n - 1);
    }
  }

  /** Two strings with blanks at the same places and the same other characters have the same words. */
  lemma {:induction false} WordsCongruent(s: string, t: string)
    requires |s| == |t|
    requires forall i :: 0 <= i < |s| ==> IsBlank(s[i]) == IsBlank(t[i])
    requires forall i :: 0 <= i < |s| ==> !IsBlank(s[i]) ==> s[i] == t[i]
    ensures Words(s) == Words(t)
    decreases |s|
  {
    if s == [] {
    } else if IsBlank(s[0]) {
      WordsCongruent(s[1..], t[1..]);
    } else {
      var n := WordLength(s);
      WordLengthUnique(t, n);
      assert s[..n] == t[..n];
      WordsCongruent(s[n..], t[n..]);
    }
  }

  lemma WordsCons(c: char, x: string)
    requires !IsBlank(c)
    ensures Words([c] + x) ==
      if x == [] || IsBlank(x[0]) then [[c]] + Words(x)
      else [[c] + Words(x)[0]] + Words(x)[1..]
  {
    var s := [c] + x;
    if x == [] || IsBlank(x[0]) {
      WordLengthUnique(s, 1);
      assert s[..1] == [c] && s[1..] == x;
    } else {
      var m := WordLength(x);
      WordLengthUnique(s, m + 1);
      assert s[..m + 1] == [c] + x[..m];
      assert s[m + 1..] == x[m..];
    }
  }

  lemma {:induction false} WordsSqueeze(s: string)
    ensures Words(SqueezeSpaces(s)) == Words(s)
    decreases |s|
  {
    if |s| <= 1 {
    } else if s[0] == ' ' && s[1] == ' ' {
      WordsSqueeze(s[1..]);
    } else {
      var x := SqueezeSpaces(s[1..]);
      var y := s[1..];
      WordsSqueeze(y);
      assert s == [s[0]] + y;
      if IsBlank(s[0]) {
        assert ([s[0]] + x)[1..] == x;
      } else {
        WordsCons(s[0], x);
        WordsCons(s[0], y);
      }
    }
  }

  lemma {:induction false} WordsOfBlanks(b: string)
    requires forall i :: 0 <= i < |b| ==> IsBlank(b[i])
    ensures Words(b) == []
    decreases |b|
  {
    if b != [] {
      WordsOfBlanks(b[1..]);
    }
  }

  lemma {:induction false} WordsAppendBlanks(x: string, b: string)
    requires forall i :: 0 <= i < |b| ==> IsBlank(b[i])
    ensures Words(x + b) == Words(x)
    decreases |x|
  {
    if x == [] {
      assert x + b == b;
      WordsOfBlanks(b);
    } else if IsBlank(x[0]) {
      assert (x + b)[1..] == x[1..] + b;
      WordsAppendBlanks(x[1..], b);
    } else {
      var n := WordLength(x);
      WordLengthUnique(x + b, n);
      assert (x + b)[..n] == x[..n];
      assert (x + b)[n..] == x[n..] + b;
      WordsAppendBlanks(x[n..], b);
    }
  }

  lemma {:induction false} WordsDropBlanks(b: string, x: string)
    requires forall i :: 0 <= i < |b| ==> IsBlank(b[i])
    ensures Words(b + x) == Words(x)
    decreases |b|
  {
    if b != [] {
      assert (b + x)[1..] == b[1..] + x;
      WordsDropBlanks(b[1..], x);
    } else {
      assert b + x == x;
    }
  }

  /** Words separated by single spaces, with nothing blank at either end. */
  predicate Canonical(u: string) {
    && (forall i :: 0 <= i < |u| ==> IsBlank(u[i]) ==> u[i] == ' ')
    && NoDoubleSpace(u)
    && (u == [] || (!IsBlank(u[0]) && !IsBlank(u[|u| - 1])))
  }

  lemma {:induction false} JoinWordsCanonical(u: string)
    requires Canonical(u)
    ensures Join(Words(u), " ") == u
    decreases |u|
  {
    if u != [] {
      var n := WordLength(u);
      if n < |u| {
        assert u[n] == ' ';
        assert n + 1 < |u|;
        assert !IsBlank(u[n + 1]);
        var v := u[n + 1..];
        assert u[n..][1..] == v;
        assert Words(u[n..]) == Words(v);
        JoinWordsCanonical(v);
        assert Words(v) == [v[..WordLength(v)]] + Words(v[WordLength(v)..]);
        JoinCons(u[..n], Words(v), " ");
        assert u == u[..n] + " " + v;
      } else {
        assert u[..n] == u;
        assert Words(u) == [u];
      }
    }
  }

  /** Every whitespace character of r (in the sense of `str.strip`) is a space. */
  predicate SpacesOnly(r: string) {
    forall c :: c in r ==> IsSpace(c) ==> c == ' '
  }

  lemma SpacesOnlyAfterReplace(txt: string)
    requires OnlyBlankWhitespace(txt)
    ensures SpacesOnly(ReplaceChar(ReplaceChar(txt, '\t', ' '), '\n', ' '))
  {
    var r2 := ReplaceChar(ReplaceChar(txt, '\t', ' '), '\n', ' ');
    forall c | c in r2 && IsSpace(c) ensures c == ' ' {
      var j :| 0 <= j < |r2| && r2[j] == c;
      assert IsSpace(txt[j]) || r2[j] == ' ';
    }
  }

  /** Stripping a string whose only whitespace is spaces removes blanks only, so the words stay. */
  lemma WordsOfStripped(sq: string)
    requires SpacesOnly(sq)
    ensures Words(Strip(sq)) == Words(sq)
  {
    var a, b := StripSlice(sq);
    var u := sq[a..b];
    var front, back := sq[..a], sq[b..];
    forall i | 0 <= i < |front| ensures IsBlank(front[i]) {
      assert front[i] == sq[i] && sq[i] in sq;
    }
    forall i | 0 <= i < |back| ensures IsBlank(back[i]) {
      assert back[i] == sq[b + i] && sq[b + i] in sq;
    }
    assert sq == front + sq[a..];
    WordsDropBlanks(front, sq[a..]);
    assert sq[a..] == u + back;
    WordsAppendBlanks(u, back);
  }

  lemma CanonicalStripped(sq: string)
    requires SpacesOnly(sq) && NoDoubleSpace(sq) && '\t' !in sq && '\n' !in sq
    ensures Canonical(Strip(sq))
  {
    var a, b := StripSlice(sq);
    var u := sq[a..b];
    forall i | 0 <= i < |u| ensures u[i] in sq {
      assert u[i] == sq[a + i];
    }
    forall i | 0 <= i < |u| - 1 ensures !(u[i] == ' ' && u[i + 1] == ' ') {
      assert u[i] == sq[a + i] && u[i + 1] == sq[a + i + 1];
    }
  }

  /** When space, tab and newline are its only whitespace, the cleaned text is the words joined by single spaces. */
  lemma CleanTextIsJoinOfWords(txt: string)
    requires OnlyBlankWhitespace(txt)
    ensures CleanText(txt) == Join(Words(txt), " ")
  {
    var r1 := ReplaceChar(txt, '\t', ' ');
    var r2 := ReplaceChar(r1, '\n', ' ');
    WordsCongruent(txt, r1);
    WordsCongruent(r1, r2);
    WordsSqueeze(r2);
    var sq := SqueezeSpaces(r2);
    SpacesOnlyAfterReplace(txt);
    assert '\t' !in r2 && '\n' !in r2;
    WordsOfStripped(sq);
    CanonicalStripped(sq);
    JoinWordsCanonical(Strip(sq));
  }

  // ---------------------------------------------------------------------------
  // Properties of clean_text, for every input.

  lemma NoTabOrNewlineAfterClean(txt: string)
    ensures '\t' !in CleanText(txt) && '\n' !in CleanText(txt)
  {
    var r2 := ReplaceChar(ReplaceChar(txt, '\t', ' '), '\n', ' ');
    var sq := SqueezeSpaces(r2);
    assert '\t' !in r2 && '\n' !in r2;
    var a, b := StripSlice(sq);
    assert forall i :: a <= i < b ==> sq[i] in sq;
  }

  lemma NoDoubleSpaceAfterClean(txt: string)
    ensures NoDoubleSpace(CleanText(txt))
  {
    var sq := SqueezeSpaces(ReplaceChar(ReplaceChar(txt, '\t', ' '), '\n', ' '));
    var a, b := StripSlice(sq);
    var u := sq[a..b];
    forall i | 0 <= i < |u| - 1 ensures !(u[i] == ' ' && u[i + 1] == ' ') {
      assert u[i] == sq[a + i] && u[i + 1] == sq[a + i + 1];
    }
  }

  lemma ReplaceAbsent(s: string, c: char, d: char)
    requires c !in s
    ensures ReplaceChar(s, c, d) == s
  {
  }

  lemma {:induction false} SqueezeNoop(s: string)
    requires NoDoubleSpace(s)
    ensures SqueezeSpaces(s) == s
    decreases |s|
  {
    if |s| > 1 {
      assert !(s[0] == ' ' && s[1] == ' ');
      SqueezeNoop(s[1..]);
      assert s == [s[0]] + s[1..];
    }
  }

  /** Cleaning a cleaned text changes nothing. */
  lemma CleanTextIdempotent(txt: string)
    ensures CleanText(CleanText(txt)) == CleanText(txt)
  {
    var u := CleanText(txt);
    NoTabOrNewlineAfterClean(txt);
    NoDoubleSpaceAfterClean(txt);
    ReplaceAbsent(u, '\t', ' ');
    ReplaceAbsent(u, '\n', ' ');
    SqueezeNoop(u);
    StripNoop(u);
  }

  // ---------------------------------------------------------------------------
  // predict_taxonerd_hosts on the merged "<parasite> ::: <text>" string.

  /** The ValueError of `microsp, txt = txt.split(' ::: ')` when the split does not give two parts. */
  datatype UnpackError = UnpackError(parts: nat)

  const Marker := " ::: "

  /**
   * `predict_taxonerd_hosts`; the tagger is a parameter that maps a text to
   * the `text` column of its predictions (empty when it finds nothing).
   */
  function PredictTaxonerdHosts(txt: string, taxonerd: string -> seq<string>): (r: Result<string, UnpackError>)
    ensures r.Err? <==> |Split(txt, Marker)| != 2
    ensures r.Err? ==> r.error.parts == |Split(txt, Marker)|
    ensures r.Ok? && taxonerd(Split(txt, Marker)[1]) == [] ==> r.value == ""
    ensures r.Ok? && taxonerd(Split(txt, Marker)[1]) != [] ==>
      r.value == Join(HostFilter.HostNames(Split(txt, Marker)[0], taxonerd(Split(txt, Marker)[1])), "; ")
  {
    var parts := Split(txt, Marker);
    if |parts| != 2 then Err(UnpackError(|parts|))
    else
      var texts := taxonerd(parts[1]);
      if texts == [] then Ok("")
      else Ok(Join(HostFilter.HostNames(parts[0], texts), "; "))
  }

  /**
   * On "<parasite> ::: <text>" with one marker, the parasite name is the part
   * before it and the tagger runs on the part after it: the result is that of
   * the two-argument `predict_taxonerd_hosts` of the names script.
   */
  lemma PredictOnMergedInput(microsp: string, text: string, taxonerd: string -> seq<string>)
    requires FreeOf(microsp, Marker)
    requires NoMatchBefore(text, Marker, |text|)
    ensures PredictTaxonerdHosts(microsp + Marker + text, taxonerd) ==
      Ok(MicrospAndHostNames.PredictTaxonerdHosts(microsp, text, taxonerd))
  {
    FreeOfNoMatch(microsp, text, Marker);
    SplitConcat(microsp, text, Marker);
    SplitWhole(text, Marker);
  }

  /** Without the marker the unpacking fails. */
  lemma PredictWithoutMarker(txt: string, taxonerd: string -> seq<string>)
    requires NoMatchBefore(txt, Marker, |txt|)
    ensures PredictTaxonerdHosts(txt, taxonerd) == Err(UnpackError(1))
  {
    SplitWhole(txt, Marker);
  }
}
