/** The result line of the overlay (`SearchOverlay.update_results`): which
    text and colour the label gets for the typed query. */
module Display {
  import opened Basics
  import opened Text
  import opened Database
  import opened Thousands

  /** The result label's text and colour. */
  datatype Label = Label(text: string, color: string)

  /** What one call does to the label: set it, or leave it alone because the
      callback raised before configuring it (a matched item without a
      `price` key raises `KeyError`). */
  datatype LabelUpdate = SetLabel(shown: Label) | LabelUnchanged

  const TooShortLabel: Label := Label("...", "#777777")
  const NoMatchLabel: Label := Label("No match", "#555555")

  /** The top-1 close-match search (`get_close_matches(q, corpus, n=1,
      cutoff=0.5)`), whose similarity ranking is not modelled. */
  type Matcher = (string, seq<string>) -> Option<string>

  /** All that is assumed of the search: what it returns is a corpus entry. */
  ghost predicate PicksFromCorpus(matcher: Matcher) {
    forall q, corpus :: matcher(q, corpus).Some? ==> matcher(q, corpus).value in corpus
  }

  /** The text shown for a match: `f"{name}: ${price:,}"`. */
  function PriceText(name: string, price: int): (r: string)
    ensures |r| > |name| + 2 && r[..|name| + 3] == name + ": $"
    ensures ParseThousands(r[|name| + 3..]) == Some(price)
  {
    var r := name + ": $" + FormatThousands(price);
    assert r[..|name| + 3] == name + ": $" && r[|name| + 3..] == FormatThousands(price);
    r
  }

  /** `update_results` for the entry text `query` against the loaded index. */
  function UpdateResults(query: string, x: Index, matcher: Matcher): (u: LabelUpdate)
    requires IndexValid(x) && PicksFromCorpus(matcher)
    ensures |query| < 3 ==> u == SetLabel(TooShortLabel)
    ensures |query| >= 3 && matcher(Lower(query), x.lowerNames).None? ==> u == SetLabel(NoMatchLabel)
    ensures |query| >= 3 && matcher(Lower(query), x.lowerNames).Some? ==>
      var m := matcher(Lower(query), x.lowerNames).value;
      var name := x.lowerToOriginal[m];
      && Lower(name) == m
      && Lookup(x.db, name).Some?
      && (Lookup(x.db, name).value.price.None? ==> u == LabelUnchanged)
      && (Lookup(x.db, name).value.price.Some? ==>
            u == SetLabel(Label(PriceText(name, Lookup(x.db, name).value.price.value), x.colors[name])))
  {
    if |query| < 3 then SetLabel(TooShortLabel)
    else
      match matcher(Lower(query), x.lowerNames)
      case None => SetLabel(NoMatchLabel)
      case Some(m) =>
        assert m in x.lowerNames;
        var name := x.lowerToOriginal[m];
        var details := Lookup(x.db, name).value;
        match details.price
        case None => LabelUnchanged
        case Some(price) => SetLabel(Label(PriceText(name, price), x.colors[name]))
  }

  /** A query of fewer than three characters never depends on the search. */
  lemma ShortQueryIgnoresMatcher(query: string, x: Index, m1: Matcher, m2: Matcher)
    requires IndexValid(x) && PicksFromCorpus(m1) && PicksFromCorpus(m2)
    requires |query| < 3
    ensures UpdateResults(query, x, m1) == UpdateResults(query, x, m2)
  {
  }

  /** For an index loaded from a table, a match names the last item whose
      lower-case name is the matched entry, and is shown with that item's
      price in the colour of that item's own rarity. */
  lemma MatchShowsItsOwnRarityAndPrice(t: Table, query: string, matcher: Matcher)
    requires DistinctNames(t) && Derive(t).Success? && PicksFromCorpus(matcher)
    requires |query| >= 3
    requires matcher(Lower(query), Derive(t).value.lowerNames).Some?
    ensures var x := Derive(t).value;
      var i := LastWithLower(t, matcher(Lower(query), x.lowerNames).value);
      && IndexValid(x) && 0 <= i
      && t[i].details.rarity != RarityNotText
      && (t[i].details.price.None? ==> UpdateResults(query, x, matcher) == LabelUnchanged)
      && (t[i].details.price.Some? ==>
            UpdateResults(query, x, matcher) ==
              SetLabel(Label(PriceText(t[i].name, t[i].details.price.value), RarityColor(t[i].details.rarity))))
  {
    var x := Derive(t).value;
    DeriveValid(t);
    var m := matcher(Lower(query), x.lowerNames).value;
    assert m in x.lowerNames;
    var i := LastWithLower(t, m);
    DeriveLowerToOriginal(t);
    assert m in x.lowerToOriginal;
    assert i >= 0 && x.lowerToOriginal[m] == t[i].name;
    DeriveColors(t);
    assert x.colors[t[i].name] == RarityColor(t[i].details.rarity);
    DeriveLowerNames(t);
    assert Lookup(x.db, t[i].name) == Some(t[i].details);
  }

  lemma LowerOfScrapStrings()
    ensures Lower("scrap") == "scrap" && Lower("Scrap Metal") == "scrap metal"
  {
    var a, b := Lower("scrap"), Lower("Scrap Metal");
    assert forall i :: 0 <= i < 5 ==> a[i] == "scrap"[i];
    assert forall i :: 0 <= i < 11 ==> b[i] == "scrap metal"[i];
  }

  lemma FormatTen()
    ensures FormatThousands(10) == "10"
  {
    assert Decimal(10) == Decimal(1) + [DigitChar(0)];
  }

  lemma ScrapMetalPriceText()
    ensures PriceText("Scrap Metal", 10) == "Scrap Metal: $10"
  {
    FormatTen();
  }

  lemma CommonRarityColor()
    ensures RarityColor(RarityText("Common")) == CommonColor
  {
    UpperOfRarityNames();
  }

  /** Typing "scrap" with the embedded table, when the search picks "scrap
      metal", shows `Scrap Metal: $10` in the COMMON colour. */
  lemma ScrapMetalExample(matcher: Matcher)
    requires PicksFromCorpus(matcher)
    requires Derive(DefaultItemDb).Success?
    requires matcher("scrap", Derive(DefaultItemDb).value.lowerNames) == Some("scrap metal")
    ensures IndexValid(Derive(DefaultItemDb).value)
    ensures UpdateResults("scrap", Derive(DefaultItemDb).value, matcher) == SetLabel(Label("Scrap Metal: $10", CommonColor))
  {
    var t := DefaultItemDb;
    DefaultItemDbNames();
    LowerOfScrapStrings();
    MatchShowsItsOwnRarityAndPrice(t, "scrap", matcher);
    assert LastWithLower(t, "scrap metal") == 10;
    CommonRarityColor();
    ScrapMetalPriceText();
  }
}
