/**
 * `get_spans` of the span-labelling script: a string such as
 * "12-20; 31-40|| 55-61" becomes the list of (start, end, label) triples
 * that spaCy's NER training data expects.
 */
module LabelledSpans {
  import opened Wrappers
  import opened Strings

  /**
   * `re.split(r'(; |\|\| )', s)`: the pieces between the separators, with
   * each separator kept between its two pieces.
   */
  function SplitSpanList(s: string): (r: seq<string>)
    ensures |r| % 2 == 1
    decreases |s|
  {
    if s == [] then [""]
    else if StartsWith(s, "; ") then ["", "; "] + SplitSpanList(s[2..])
    else if StartsWith(s, "|| ") then ["", "|| "] + SplitSpanList(s[3..])
    else
      var rest := SplitSpanList(s[1..]);
      [[s[0]] + rest[0]] + rest[1..]
  }

  /** `''.join(parts)` */
  function Concat(parts: seq<string>): string
    decreases |parts|
  {
    if parts == [] then "" else parts[0] + Concat(parts[1..])
  }

  /** The pieces and separators put back together give the input. */
  lemma {:induction false} SplitSpanListConcat(s: string)
    ensures Concat(SplitSpanList(s)) == s
    decreases |s|
  {
    var r := SplitSpanList(s);
    if s == [] {
    } else if StartsWith(s, "; ") || StartsWith(s, "|| ") {
      var n := if StartsWith(s, "; ") then 2 else 3;
      var rest := SplitSpanList(s[n..]);
      assert r == ["", s[..n]] + rest;
      ConsPair("", s[..n], rest);
      TailOfCons(s[..n], rest);
      assert Concat(r) == "" + (s[..n] + Concat(rest));
      SplitSpanListConcat(s[n..]);
      assert s == s[..n] + s[n..];
    } else {
      var rest := SplitSpanList(s[1..]);
      var x := [s[0]] + rest[0];
      assert r == [x] + rest[1..];
      TailOfCons(x, rest[1..]);
      assert Concat(r) == x + Concat(rest[1..]);
      assert Concat(rest) == rest[0] + Concat(rest[1..]);
      SplitSpanListConcat(s[1..]);
      AppendAssoc([s[0]], rest[0], Concat(rest[1..]));
      assert [s[0]] + s[1..] == s;
    }
  }

  /** The head and the tail of a sequence with one element in front. */
  lemma TailOfCons<T>(x: T, z: seq<T>)
    ensures ([x] + z)[0] == x && ([x] + z)[1..] == z
  {
  }

  predicate SeparatorsAtOddPlaces(r: seq<string>) {
    forall k :: 0 <= k < |r| && k % 2 == 1 ==> r[k] == "; " || r[k] == "|| "
  }

  /** The separators sit at the odd places. */
  lemma {:induction false} SplitSpanListSeparators(s: string)
    ensures SeparatorsAtOddPlaces(SplitSpanList(s))
    decreases |s|
  {
    var r := SplitSpanList(s);
    if s == [] {
    } else if StartsWith(s, "; ") || StartsWith(s, "|| ") {
      var n := if StartsWith(s, "; ") then 2 else 3;
      var rest := SplitSpanList(s[n..]);
      SplitSpanListSeparators(s[n..]);
      assert r == ["", s[..n]] + rest;
      assert forall k :: 2 <= k < |r| ==> r[k] == rest[k - 2];
    } else {
      var rest := SplitSpanList(s[1..]);
      SplitSpanListSeparators(s[1..]);
      assert r == [[s[0]] + rest[0]] + rest[1..];
      forall k | 0 <= k < |r| && k % 2 == 1 ensures r[k] == "; " || r[k] == "|| " {
        assert r[k] == rest[k];
      }
    }
  }

  predicate PiecesAtEvenPlacesFree(r: seq<string>) {
    forall k :: 0 <= k < |r| && k % 2 == 0 ==> !Contains(r[k], "; ") && !Contains(r[k], "|| ")
  }

  /**
   * The pieces at the even places hold neither separator, so with
   * SplitSpanListConcat and SplitSpanListSeparators the input is cut at
   * every "; " and every "|| ", leftmost first.
   */
  lemma {:induction false} SplitSpanListPiecesFree(s: string)
    ensures PiecesAtEvenPlacesFree(SplitSpanList(s))
    decreases |s|
  {
    if s == [] {
      assert SplitSpanList(s) == [""];
      assert !Contains("", "; ") && !Contains("", "|| ");
    } else if StartsWith(s, "; ") {
      SplitSpanListPiecesFree(s[2..]);
      PiecesFreeSeparatorStep(s, 2);
    } else if StartsWith(s, "|| ") {
      SplitSpanListPiecesFree(s[3..]);
      PiecesFreeSeparatorStep(s, 3);
    } else {
      SplitSpanListPiecesFree(s[1..]);
      PiecesFreeCharStep(s);
    }
  }

  lemma PiecesFreeSeparatorStep(s: string, n: nat)
    requires (n == 2 && StartsWith(s, "; ")) || (n == 3 && StartsWith(s, "|| ") && !StartsWith(s, "; "))
    requires PiecesAtEvenPlacesFree(SplitSpanList(s[n..]))
    ensures PiecesAtEvenPlacesFree(SplitSpanList(s))
  {
    var r := SplitSpanList(s);
    var rest := SplitSpanList(s[n..]);
    assert r == ["", s[..n]] + rest;
    assert !Contains("", "; ") && !Contains("", "|| ");
    assert forall k :: 2 <= k < |r| ==> r[k] == rest[k - 2];
  }

  lemma PiecesFreeCharStep(s: string)
    requires s != [] && !StartsWith(s, "; ") && !StartsWith(s, "|| ")
    requires PiecesAtEvenPlacesFree(SplitSpanList(s[1..]))
    ensures PiecesAtEvenPlacesFree(SplitSpanList(s))
  {
    var r := SplitSpanList(s);
    var rest := SplitSpanList(s[1..]);
    var x := [s[0]] + rest[0];
    assert r == [x] + rest[1..];
    SplitSpanListConcat(s);
    TailOfCons(x, rest[1..]);
    assert s == x + Concat(rest[1..]);
    PrefixNotStarting(x, Concat(rest[1..]), "; ");
    PrefixNotStarting(x, Concat(rest[1..]), "|| ");
    assert x[1..] == rest[0];
    assert !Contains(r[0], "; ") && !Contains(r[0], "|| ");
    assert forall k :: 1 <= k < |r| ==> r[k] == rest[k];
  }

  /** A text that does not start with sep has no prefix that does. */
  lemma PrefixNotStarting(x: string, y: string, sep: string)
    requires !StartsWith(x + y, sep)
    ensures !StartsWith(x, sep)
  {
    if |sep| <= |x| {
      assert (x + y)[..|sep|] == x[..|sep|];
    }
  }

  /** The pieces the comprehension drops. */
  predicate Dropped(p: string) {
    p == "; " || p == "|| " || p == "" || p == " "
  }

  /** `[s for s in pieces if s not in ('; ', '|| ', '', ' ')]` */
  function Kept(pieces: seq<string>): (r: seq<string>)
    ensures |r| <= |pieces|
    ensures forall x :: x in r <==> x in pieces && !Dropped(x)
    decreases |pieces|
  {
    if pieces == [] then []
    else if Dropped(pieces[0]) then Kept(pieces[1..])
    else [pieces[0]] + Kept(pieces[1..])
  }

  /** The comprehension keeps the order of the pieces it keeps. */
  lemma {:induction false} KeptAppend(a: seq<string>, b: seq<string>)
    ensures Kept(a + b) == Kept(a) + Kept(b)
    decreases |a|
  {
    if a == [] {
      assert a + b == b;
    } else {
      assert (a + b)[1..] == a[1..] + b;
      KeptAppend(a[1..], b);
    }
  }

  /** One (start, end, label) triple. */
  datatype Span = Span(start: int, end: int, entLabel: string)

  /** The ValueErrors of `i, j = ...` on a piece with other than one hyphen, and of `int(...)`. */
  datatype SpanError = UnpackError(parts: nat) | NotAnInteger(text: string)

  /** `(int(i), int(j), label)` for `i, j = piece.split('-')` */
  function PieceSpan(piece: string, entLabel: string): (r: Result<Span, SpanError>)
    ensures r.Ok? <==> (|Split(piece, "-")| == 2
      && ParseInt(Split(piece, "-")[0]).Some? && ParseInt(Split(piece, "-")[1]).Some?)
    ensures r.Ok? ==> r.value.entLabel == entLabel
    ensures r.Ok? ==> (Some(r.value.start) == ParseInt(Split(piece, "-")[0])
      && Some(r.value.end) == ParseInt(Split(piece, "-")[1]))
  {
    var parts := Split(piece, "-");
    if |parts| != 2 then Err(UnpackError(|parts|))
    else match (ParseInt(parts[0]), ParseInt(parts[1]))
      case (None, _) => Err(NotAnInteger(parts[0]))
      case (Some(_), None) => Err(NotAnInteger(parts[1]))
      case (Some(i), Some(j)) => Ok(Span(i, j, entLabel))
  }

  /** The values of a list built element by element, or the first error raised. */
  function Collect<T, E>(rs: seq<Result<T, E>>): (r: Result<seq<T>, E>)
    ensures r.Ok? <==> forall k :: 0 <= k < |rs| ==> rs[k].Ok?
    ensures r.Ok? ==> |r.value| == |rs| && forall k :: 0 <= k < |rs| ==> rs[k] == Ok(r.value[k])
    decreases |rs|
  {
    if rs == [] then Ok([])
    else match rs[0]
      case Err(e) => Err(e)
      case Ok(v) =>
        var rest := Collect(rs[1..]);
        assert forall k :: 1 <= k < |rs| ==> rs[1..][k - 1] == rs[k];
        if rest.Err? then Err(rest.error) else Ok([v] + rest.value)
  }

  /** The error raised is that of the first element that fails. */
  lemma {:induction false} FirstErrorRaised<T, E>(rs: seq<Result<T, E>>)
    requires Collect(rs).Err?
    ensures exists k :: 0 <= k < |rs| && rs[k] == Err(Collect(rs).error) && forall m :: 0 <= m < k ==> rs[m].Ok?
    decreases |rs|
  {
    if rs[0].Err? {
      assert rs[0] == Err(Collect(rs).error);
    } else {
      var tail := rs[1..];
      FirstErrorRaised(tail);
      var k :| 0 <= k < |tail| && tail[k] == Err(Collect(tail).error) && forall m :: 0 <= m < k ==> tail[m].Ok?;
      assert rs[k + 1] == tail[k];
      forall m | 0 <= m < k + 1 ensures rs[m].Ok? {
        if m > 0 {
          assert rs[m] == tail[m - 1];
        }
      }
    }
  }

  /** The result of each kept piece, in order. */
  function PieceResults(pieces: seq<string>, entLabel: string): (r: seq<Result<Span, SpanError>>)
    ensures |r| == |pieces| && forall k :: 0 <= k < |pieces| ==> r[k] == PieceSpan(pieces[k], entLabel)
  {
    seq(|pieces|, k requires 0 <= k < |pieces| => PieceSpan(pieces[k], entLabel))
  }

  /** The triples of the kept pieces, in order; the first piece that fails raises. */
  function PieceSpans(pieces: seq<string>, entLabel: string): (r: Result<seq<Span>, SpanError>)
    ensures r.Ok? <==> forall k :: 0 <= k < |pieces| ==> PieceSpan(pieces[k], entLabel).Ok?
    ensures r.Ok? ==> |r.value| == |pieces| && forall k :: 0 <= k < |pieces| ==> Ok(r.value[k]) == PieceSpan(pieces[k], entLabel)
  {
    var rs := PieceResults(pieces, entLabel);
    assert forall k :: 0 <= k < |pieces| ==> rs[k] == PieceSpan(pieces[k], entLabel);
    Collect(rs)
  }

  /** `get_spans` */
  function GetSpans(entitySpans: string, entLabel: string): (r: Result<seq<Span>, SpanError>)
    ensures r.Ok? ==> forall k :: 0 <= k < |r.value| ==> r.value[k].entLabel == entLabel
  {
    PieceSpans(Kept(SplitSpanList(entitySpans)), entLabel)
  }

  /**
   * `get_spans` succeeds exactly when every kept piece gives a triple, and
   * then it lists those triples, one per kept piece, in order.
   */
  lemma GetSpansPieces(entitySpans: string, entLabel: string)
    ensures var kept := Kept(SplitSpanList(entitySpans));
      var r := GetSpans(entitySpans, entLabel);
      && (r.Ok? <==> forall k :: 0 <= k < |kept| ==> PieceSpan(kept[k], entLabel).Ok?)
      && (r.Ok? ==> |r.value| == |kept| && forall k :: 0 <= k < |kept| ==> Ok(r.value[k]) == PieceSpan(kept[k], entLabel))
  {
  }

  lemma EmptySpanList(entLabel: string)
    ensures GetSpans("", entLabel) == Ok([])
  {
    assert SplitSpanList("") == [""];
    assert Kept([""]) == [];
  }

  // ---------------------------------------------------------------------------
  // Round trip: spans written as "i-j" and joined by "; " are read back.

  /** `f'{i}-{j}'` */
  function SpanText(i: nat, j: nat): (s: string)
    ensures |s| >= 3
  {
    NatToString(i) + "-" + NatToString(j)
  }

  /** The text of each span, in order. */
  function SpanTexts(pairs: seq<(nat, nat)>): (r: seq<string>)
    ensures |r| == |pairs| && forall k :: 0 <= k < |pairs| ==> r[k] == SpanText(pairs[k].0, pairs[k].1)
    decreases |pairs|
  {
    if pairs == [] then [] else [SpanText(pairs[0].0, pairs[0].1)] + SpanTexts(pairs[1..])
  }

  /** The spans joined by "; ". */
  function SpanListText(pairs: seq<(nat, nat)>): string {
    Join(SpanTexts(pairs), "; ")
  }

  predicate NoSeparatorChar(a: string) {
    ';' !in a && '|' !in a
  }

  lemma {:induction false} SplitSpanListPlain(a: string)
    requires NoSeparatorChar(a)
    ensures SplitSpanList(a) == [a]
    decreases |a|
  {
    if a != [] {
      SplitSpanListPlain(a[1..]);
      assert [a[0]] + a[1..] == a;
    }
  }

  /** A piece free of separator characters, then "; " or "|| ", is split off first. */
  lemma {:induction false} SplitSpanListCons(a: string, sep: string, rest: string)
    requires NoSeparatorChar(a)
    requires sep == "; " || sep == "|| "
    ensures SplitSpanList(a + sep + rest) == [a, sep] + SplitSpanList(rest)
    decreases |a|
  {
    var s := a + sep + rest;
    if a == [] {
      assert s == sep + rest;
      assert StartsWith(s, sep);
      assert s[|sep|..] == rest;
      if sep == "|| " {
        assert !StartsWith(s, "; ");
      }
    } else {
      assert s[0] == a[0] && a[0] in a;
      assert s[..2][0] == s[0] && s[..3][0] == s[0];
      assert !StartsWith(s, "; ") && !StartsWith(s, "|| ");
      assert s[1..] == a[1..] + sep + rest;
      SplitSpanListCons(a[1..], sep, rest);
      var tail := SplitSpanList(s[1..]);
      assert SplitSpanList(s) == [[s[0]] + tail[0]] + tail[1..];
      ConsPair(a[1..], sep, SplitSpanList(rest));
      ConsPair(a, sep, SplitSpanList(rest));
      assert [a[0]] + a[1..] == a;
    }
  }

  /** The head and the tail of a sequence with two elements in front. */
  lemma ConsPair<T>(x: T, y: T, z: seq<T>)
    ensures ([x, y] + z)[0] == x && ([x, y] + z)[1..] == [y] + z && [x] + ([y] + z) == [x, y] + z
  {
  }

  lemma SpanTextPlain(i: nat, j: nat)
    ensures NoSeparatorChar(SpanText(i, j)) && !Dropped(SpanText(i, j))
  {
    var a, b := NatToString(i), NatToString(j);
    assert forall k :: 0 <= k < |a| ==> IsDigit(a[k]);
    assert forall k :: 0 <= k < |b| ==> IsDigit(b[k]);
    assert forall k :: 0 <= k < |SpanText(i, j)| ==>
      SpanText(i, j)[k] == '-' || SpanText(i, j)[k] in a || SpanText(i, j)[k] in b;
  }

  lemma SpanTextParses(i: nat, j: nat, entLabel: string)
    ensures PieceSpan(SpanText(i, j), entLabel) == Ok(Span(i, j, entLabel))
  {
    var a, b := NatToString(i), NatToString(j);
    assert forall k :: 0 <= k < |a| ==> IsDigit(a[k]);
    assert forall k :: 0 <= k < |b| ==> IsDigit(b[k]);
    FreeOfNoMatch(a, b, "-");
    SplitConcat(a, b, "-");
    FreeOfNoMatch(b, "", "-");
    SplitWhole(b, "-");
    ParseIntOfNatToString(i);
    ParseIntOfNatToString(j);
  }

  lemma {:induction false} RoundTripPieces(pairs: seq<(nat, nat)>)
    requires pairs != []
    ensures Kept(SplitSpanList(SpanListText(pairs))) == SpanTexts(pairs)
    decreases |pairs|
  {
    var first := SpanText(pairs[0].0, pairs[0].1);
    var tail := SpanTexts(pairs[1..]);
    SpanTextPlain(pairs[0].0, pairs[0].1);
    if |pairs| == 1 {
      assert SpanTexts(pairs) == [first];
      SplitSpanListPlain(first);
      assert Kept([first]) == [first] + Kept([]);
    } else {
      var rest := SpanListText(pairs[1..]);
      JoinCons(first, tail, "; ");
      SplitSpanListCons(first, "; ", rest);
      RoundTripPieces(pairs[1..]);
      var later := SplitSpanList(rest);
      ConsPair(first, "; ", later);
      TailOfCons("; ", later);
      assert Kept([first, "; "] + later) == [first] + Kept(["; "] + later);
      assert Kept(["; "] + later) == Kept(later);
    }
  }

  /** Spans written as "i-j" and joined by "; " are read back as the same spans, in order. */
  lemma SpanListRoundTrip(pairs: seq<(nat, nat)>, entLabel: string)
    requires pairs != []
    ensures GetSpans(SpanListText(pairs), entLabel).Ok?
    ensures GetSpans(SpanListText(pairs), entLabel).value ==
      seq(|pairs|, k requires 0 <= k < |pairs| => Span(pairs[k].0, pairs[k].1, entLabel))
  {
    RoundTripPieces(pairs);
    SpanTextsParse(pairs, entLabel);
  }

  /** The spans written with a chosen separator, "; " or "|| ", after each but the last. */
  function SpanListTextWith(pairs: seq<(nat, nat)>, seps: seq<string>): string
    requires |pairs| > 0 && |seps| == |pairs| - 1
    decreases |pairs|
  {
    if |pairs| == 1 then SpanText(pairs[0].0, pairs[0].1)
    else SpanText(pairs[0].0, pairs[0].1) + seps[0] + SpanListTextWith(pairs[1..], seps[1..])
  }

  predicate SpanSeparators(seps: seq<string>) {
    forall k :: 0 <= k < |seps| ==> seps[k] == "; " || seps[k] == "|| "
  }

  lemma {:induction false} RoundTripPiecesWith(pairs: seq<(nat, nat)>, seps: seq<string>)
    requires |pairs| > 0 && |seps| == |pairs| - 1 && SpanSeparators(seps)
    ensures Kept(SplitSpanList(SpanListTextWith(pairs, seps))) == SpanTexts(pairs)
    decreases |pairs|
  {
    var first := SpanText(pairs[0].0, pairs[0].1);
    SpanTextPlain(pairs[0].0, pairs[0].1);
    if |pairs| == 1 {
      assert SpanTexts(pairs) == [first];
      SplitSpanListPlain(first);
      assert Kept([first]) == [first] + Kept([]);
    } else {
      var rest := SpanListTextWith(pairs[1..], seps[1..]);
      var sep := seps[0];
      assert SpanSeparators(seps[1..]) by {
        assert forall k :: 0 <= k < |seps[1..]| ==> seps[1..][k] == seps[k + 1];
      }
      SplitSpanListCons(first, sep, rest);
      RoundTripPiecesWith(pairs[1..], seps[1..]);
      var later := SplitSpanList(rest);
      ConsPair(first, sep, later);
      TailOfCons(sep, later);
      assert Kept([first, sep] + later) == [first] + Kept([sep] + later);
      assert Kept([sep] + later) == Kept(later);
    }
  }

  /**
   * Spans written as "i-j" with "; " or "|| " between them, in any mix, are
   * read back as the same spans, in order.
   */
  lemma MixedSpanListRoundTrip(pairs: seq<(nat, nat)>, seps: seq<string>, entLabel: string)
    requires |pairs| > 0 && |seps| == |pairs| - 1 && SpanSeparators(seps)
    ensures GetSpans(SpanListTextWith(pairs, seps), entLabel).Ok?
    ensures GetSpans(SpanListTextWith(pairs, seps), entLabel).value ==
      seq(|pairs|, k requires 0 <= k < |pairs| => Span(pairs[k].0, pairs[k].1, entLabel))
  {
    var text := SpanListTextWith(pairs, seps);
    RoundTripPiecesWith(pairs, seps);
    SpanTextsParse(pairs, entLabel);
  }

  /** Each "i-j" text parses to its span. */
  lemma SpanTextsParse(pairs: seq<(nat, nat)>, entLabel: string)
    ensures PieceSpans(SpanTexts(pairs), entLabel) ==
      Ok(seq(|pairs|, k requires 0 <= k < |pairs| => Span(pairs[k].0, pairs[k].1, entLabel)))
  {
    var texts := SpanTexts(pairs);
    var spans := seq(|pairs|, k requires 0 <= k < |pairs| => Span(pairs[k].0, pairs[k].1, entLabel));
    var rs := PieceResults(texts, entLabel);
    forall k | 0 <= k < |pairs| ensures rs[k] == Ok(spans[k]) {
      SpanTextParses(pairs[k].0, pairs[k].1, entLabel);
    }
    CollectAllOk(rs, spans);
  }

  /** Collecting results that are all Ok gives their values back. */
  lemma CollectAllOk<T, E>(rs: seq<Result<T, E>>, vs: seq<T>)
    requires |rs| == |vs| && forall k :: 0 <= k < |rs| ==> rs[k] == Ok(vs[k])
    ensures Collect(rs) == Ok(vs)
  {
    var r := Collect(rs);
    assert r.Ok?;
    assert forall k :: 0 <= k < |vs| ==> r.value[k] == vs[k];
    assert r.value == vs;
  }

  /** "1-2-3" splits into three parts at its hyphens. */
  lemma SplitTwoHyphens()
    ensures Split("1-2-3", "-") == ["1", "2", "3"]
  {
    FreeOfNoMatch("3", "", "-");
    SplitWhole("3", "-");
    FreeOfNoMatch("2", "3", "-");
    SplitConcat("2", "3", "-");
    assert "2" + "-" + "3" == "2-3";
    FreeOfNoMatch("1", "2-3", "-");
    SplitConcat("1", "2-3", "-");
    assert "1" + "-" + "2-3" == "1-2-3";
  }

  /** A piece without exactly one hyphen raises, here "1-2-3". */
  lemma TwoHyphensRaise(entLabel: string)
    ensures GetSpans("1-2-3", entLabel) == Err(UnpackError(3))
  {
    SplitSpanListPlain("1-2-3");
    assert Kept(["1-2-3"]) == ["1-2-3"];
    SplitTwoHyphens();
    assert PieceSpan("1-2-3", entLabel) == Err(UnpackError(3));
    assert ["1-2-3"][1..] == [];
  }
}
