/** The item database loader (`load_data`): choice of the data source, and the
    lower-case name corpus, name-to-colour map and lower-case-to-canonical map
    derived from the chosen table. */
module Database {
  import opened Basics
  import opened Text

  /** The value under an item's `rarity` key: absent, a string, or some other
      JSON value (a number, `null`, a list, ...). */
  datatype RarityValue = NoRarity | RarityText(text: string) | RarityNotText

  /** An item's details; `price` is `None` when the key is absent. */
  datatype Details = Details(price: Option<int>, rarity: RarityValue)

  datatype Item = Item(name: string, details: Details)

  /** A parsed item table, in the dictionary's iteration order. */
  type Table = seq<Item>

  /** Dictionary keys are unique. */
  predicate DistinctNames(t: Table) {
    forall i, j :: 0 <= i < j < |t| ==> t[i].name != t[j].name
  }

  /** `ITEM_DB[name]`: the details stored under `name`, if any. */
  function Lookup(t: Table, name: string): (d: Option<Details>)
    ensures d.Some? <==> exists i :: 0 <= i < |t| && t[i].name == name
    ensures DistinctNames(t) ==> forall i :: 0 <= i < |t| && t[i].name == name ==> d == Some(t[i].details)
    decreases |t|
  {
    if t == [] then None
    else if t[|t| - 1].name == name then Some(t[|t| - 1].details)
    else Lookup(t[..|t| - 1], name)
  }

  const CommonColor: string := "#8C8C8C"

  /** `RARITY_COLORS`. */
  const RarityColors: map<string, string> := map[
    "COMMON" := CommonColor,
    "UNCOMMON" := "#26BF57",
    "RARE" := "#00A8F2",
    "EPIC" := "#DF40AA",
    "LEGENDARY" := "#FFC600"
  ]

  /** `details.get('rarity', 'COMMON').upper()`; `None` where `.upper()` raises
      because the value is not a string. */
  function RarityKey(r: RarityValue): (k: Option<string>)
    ensures k.None? <==> r == RarityNotText
    ensures k.Some? ==> forall i :: 0 <= i < |k.value| ==> !IsLowerAscii(k.value[i])
    ensures r.RarityText? ==> |k.value| == |r.text|
  {
    match r
    case NoRarity => Some("COMMON")
    case RarityText(s) => Some(Upper(s))
    case RarityNotText => None
  }

  /** `RARITY_COLORS.get(key, RARITY_COLORS['COMMON'])`. */
  function ColorForKey(key: string): (c: string)
    ensures c != CommonColor ==> key in RarityColors && RarityColors[key] == c
  {
    if key in RarityColors then RarityColors[key] else RarityColors["COMMON"]
  }

  /** The colour an item with this rarity value gets. */
  function RarityColor(r: RarityValue): (c: string)
    requires r != RarityNotText
    ensures c != CommonColor ==> r.RarityText? && Upper(r.text) in RarityColors && RarityColors[Upper(r.text)] == c
  {
    ColorForKey(RarityKey(r).value)
  }

  /** A missing rarity, or one outside the five known names in any letter
      case, gets the COMMON colour; a known name in any letter case gets its
      own colour. */
  lemma RarityColorDefaults(r: RarityValue)
    requires r != RarityNotText
    ensures r == NoRarity ==> RarityColor(r) == CommonColor
    ensures r.RarityText? && Upper(r.text) !in RarityColors ==> RarityColor(r) == CommonColor
    ensures r.RarityText? && Upper(r.text) in RarityColors ==> RarityColor(r) == RarityColors[Upper(r.text)]
  {
  }

  /** The lookup ignores letter case. */
  lemma RarityColorCaseInsensitive(a: string, b: string)
    requires Upper(a) == Upper(b)
    ensures RarityColor(RarityText(a)) == RarityColor(RarityText(b))
  {
  }

  /** `DEFAULT_ITEM_DB`, the embedded fallback table. */
  const DefaultItemDb: Table := [
    Item("Matriarch Reactor", Details(Some(13000), RarityText("Legendary"))),
    Item("Magnetron", Details(Some(6000), RarityText("Epic"))),
    Item("Microscope", Details(Some(3000), RarityText("Rare"))),
    Item("Duct Tape", Details(Some(300), RarityText("Uncommon"))),
    Item("Chemicals", Details(Some(50), RarityText("Common"))),
    Item("Crystallized Hydroxide", Details(Some(1050), RarityText("Rare"))),
    Item("Infrared Lens", Details(Some(800), RarityText("Uncommon"))),
    Item("Quantum Entangler", Details(Some(25000), RarityText("Legendary"))),
    Item("Fusion Coil", Details(Some(9500), RarityText("Epic"))),
    Item("Nanotube Fiber", Details(Some(450), RarityText("Uncommon"))),
    Item("Scrap Metal", Details(Some(10), RarityText("Common")))
  ]

  /** What opening and parsing the price file came to. */
  datatype FileOutcome =
    | Parsed(table: Table)   // the file opened and `json.load` returned a table
    | NotFound               // FileNotFoundError
    | DecodeError            // json.JSONDecodeError
    | OtherError             // any other exception

  /** The table `load_data` goes on with, and whether it tries to write the
      fallback table to disk as a seed file. */
  datatype SourceChoice = SourceChoice(table: Table, seedWrite: bool)

  /** The `try`/`except` block of `load_data`; `frozen` tells whether the
      program runs as a packaged executable. */
  function ChooseSource(outcome: FileOutcome, frozen: bool): (c: SourceChoice)
    ensures outcome.Parsed? ==> c.table == outcome.table && !c.seedWrite
    ensures !outcome.Parsed? ==> c.table == DefaultItemDb
    ensures c.seedWrite <==> outcome == NotFound && !frozen
  {
    match outcome
    case Parsed(t) => SourceChoice(t, false)
    case NotFound => SourceChoice(DefaultItemDb, !frozen)
    case DecodeError => SourceChoice(DefaultItemDb, false)
    case OtherError => SourceChoice(DefaultItemDb, false)
  }

  /** The four values `load_data` returns: the table, the lower-case name
      corpus, the colour of each name, and the canonical name of each
      lower-case name. */
  datatype Index = Index(
    db: Table,
    lowerNames: seq<string>,
    colors: map<string, string>,
    lowerToOriginal: map<string, string>)

  /** What processing the last item of `t` adds to the three derived
      structures built from the items before it, or the position of that
      item when its rarity makes `.upper()` raise. The table itself is
      returned as it was chosen, not rebuilt. */
  function AddLast(x: Index, t: Table): (r: Result<Index, nat>)
    requires t != []
    ensures r.Failure? <==> t[|t| - 1].details.rarity == RarityNotText
    ensures r.Failure? ==> r.error == |t| - 1
    ensures r.Success? ==>
      && r.value.db == t && |r.value.lowerNames| == |x.lowerNames| + 1
      && t[|t| - 1].name in r.value.colors && Lower(t[|t| - 1].name) in r.value.lowerToOriginal
  {
    var it := t[|t| - 1];
    match RarityKey(it.details.rarity)
    case None => Failure(|t| - 1)
    case Some(key) =>
      Success(Index(
        t,
        x.lowerNames + [Lower(it.name)],
        x.colors[it.name := ColorForKey(key)],
        x.lowerToOriginal[Lower(it.name) := it.name]))
  }

  /** The result of the processing loop of `load_data` over `t`, item by item
      in table order. */
  function Derive(t: Table): (r: Result<Index, nat>)
    ensures r.Failure? ==> r.error < |t| && t[r.error].details.rarity == RarityNotText
    ensures r.Success? ==> r.value.db == t && |r.value.lowerNames| == |t|
    decreases |t|
  {
    if t == [] then Success(Index([], [], map[], map[]))
    else match Derive(t[..|t| - 1])
      case Failure(i) => Failure(i)
      case Success(x) => AddLast(x, t)
  }

  /** Once a prefix of the table raises, the whole table raises at the same
      item: the items after it are never processed. */
  lemma {:induction false} DeriveFailurePersists(t: Table, k: nat)
    requires k <= |t| && Derive(t[..k]).Failure?
    ensures Derive(t) == Derive(t[..k])
    decreases |t| - k
  {
    if k < |t| {
      assert t[..k + 1][..k] == t[..k];
      DeriveFailurePersists(t, k + 1);
    } else {
      assert t[..k] == t;
    }
  }

  /** One successful step of the processing: the prefix succeeded, and the
      table is kept and the last item's lower-case name is appended to the
      corpus. */
  lemma DeriveStepNames(t: Table)
    requires t != [] && Derive(t).Success?
    ensures Derive(t[..|t| - 1]).Success?
    ensures Derive(t).value.db == t
    ensures Derive(t).value.lowerNames == Derive(t[..|t| - 1]).value.lowerNames + [Lower(t[|t| - 1].name)]
  {
    var p, it := t[..|t| - 1], t[|t| - 1];
    assert Derive(p).Success?;
    assert Derive(t) == AddLast(Derive(p).value, t);
    assert RarityKey(it.details.rarity).Some?;
  }

  /** One successful step of the processing: the last item's rarity is a
      string or missing, and its name gets that rarity's colour. */
  lemma DeriveStepColors(t: Table)
    requires t != [] && Derive(t).Success?
    ensures Derive(t[..|t| - 1]).Success?
    ensures t[|t| - 1].details.rarity != RarityNotText
    ensures Derive(t).value.colors
      == Derive(t[..|t| - 1]).value.colors[t[|t| - 1].name := RarityColor(t[|t| - 1].details.rarity)]
  {
    var p, it := t[..|t| - 1], t[|t| - 1];
    var x := Derive(p).value;
    match RarityKey(it.details.rarity)
    case Some(key) =>
      assert Derive(t).value.colors == x.colors[it.name := ColorForKey(key)];
  }

  /** One successful step of the processing: the last item's lower-case name
      is mapped to its canonical name, replacing any earlier entry. */
  lemma DeriveStepLowerMap(t: Table)
    requires t != [] && Derive(t).Success?
    ensures Derive(t[..|t| - 1]).Success?
    ensures Derive(t).value.lowerToOriginal
      == Derive(t[..|t| - 1]).value.lowerToOriginal[Lower(t[|t| - 1].name) := t[|t| - 1].name]
  {
    var p, it := t[..|t| - 1], t[|t| - 1];
    assert Derive(p).Success?;
    assert Derive(t) == AddLast(Derive(p).value, t);
    assert RarityKey(it.details.rarity).Some?;
  }

  /** Processing raises exactly when some item's rarity is present but not a
      string, and then at the first such item. */
  lemma {:induction false} DeriveFailsAtFirstNonText(t: Table)
    ensures Derive(t).Success? <==> forall j :: 0 <= j < |t| ==> t[j].details.rarity != RarityNotText
    ensures Derive(t).Failure? ==>
      var i := Derive(t).error;
      && i < |t| && t[i].details.rarity == RarityNotText
      && forall j :: 0 <= j < i ==> t[j].details.rarity != RarityNotText
    decreases |t|
  {
    if t != [] {
      var p := t[..|t| - 1];
      DeriveFailsAtFirstNonText(p);
      assert forall j :: 0 <= j < |p| ==> p[j] == t[j];
    }
  }

  /** The corpus has one entry per item, in table order, each the item's name
      in lower case, and the table is returned as it was chosen. */
  lemma {:induction false} DeriveLowerNames(t: Table)
    requires Derive(t).Success?
    ensures Derive(t).value.db == t
    ensures |Derive(t).value.lowerNames| == |t|
    ensures forall i :: 0 <= i < |t| ==> Derive(t).value.lowerNames[i] == Lower(t[i].name)
    decreases |t|
  {
    if t != [] {
      var n := |t| - 1;
      var p, it := t[..n], t[n];
      DeriveStepNames(t);
      DeriveLowerNames(p);
      var names0, names := Derive(p).value.lowerNames, Derive(t).value.lowerNames;
      forall i | 0 <= i < |t|
        ensures names[i] == Lower(t[i].name)
      {
        if i < n {
          calc {
            names[i];
            names0[i];
            Lower(p[i].name);
            { assert p[i] == t[i]; }
            Lower(t[i].name);
          }
        }
      }
    }
  }

  /** The position of the last item whose lower-case name is `key`, or -1. */
  function LastWithLower(t: Table, key: string): (j: int)
    ensures -1 <= j < |t|
    ensures j == -1 ==> forall k :: 0 <= k < |t| ==> Lower(t[k].name) != key
    ensures j >= 0 ==> Lower(t[j].name) == key && forall k :: j < k < |t| ==> Lower(t[k].name) != key
    decreases |t|
  {
    if t == [] then -1
    else if Lower(t[|t| - 1].name) == key then |t| - 1
    else LastWithLower(t[..|t| - 1], key)
  }

  /** The lower-case map has a key for every lower-case name of the table and
      no other, and maps it to the canonical name of the LAST item with that
      lower-case name: on a case-insensitive collision the later item wins. */
  lemma {:induction false} DeriveLowerToOriginal(t: Table)
    requires Derive(t).Success?
    ensures var m := Derive(t).value.lowerToOriginal;
      forall key :: (key in m <==> LastWithLower(t, key) >= 0)
        && (key in m ==> m[key] == t[LastWithLower(t, key)].name)
    decreases |t|
  {
    if t != [] {
      var p := t[..|t| - 1];
      DeriveStepLowerMap(t);
      DeriveLowerToOriginal(p);
      assert forall k :: 0 <= k < |p| ==> p[k] == t[k];
    }
  }

  /** Every entry of the lower-case map leads back to a canonical name whose
      lower case is the key. */
  lemma LowerToOriginalConsistent(t: Table)
    requires Derive(t).Success?
    ensures var m := Derive(t).value.lowerToOriginal;
      forall key :: key in m ==> Lower(m[key]) == key && exists i :: 0 <= i < |t| && t[i].name == m[key]
  {
    DeriveLowerToOriginal(t);
  }

  /** Exactly the names of the table have a colour. */
  lemma {:induction false} DeriveColorKeys(t: Table)
    requires Derive(t).Success?
    ensures forall name :: name in Derive(t).value.colors <==> exists i :: 0 <= i < |t| && t[i].name == name
    decreases |t|
  {
    if t != [] {
      var n := |t| - 1;
      var p, it := t[..n], t[n];
      DeriveStepColors(t);
      DeriveColorKeys(p);
      var c0, c := Derive(p).value.colors, Derive(t).value.colors;
      forall name
        ensures name in c <==> exists i :: 0 <= i < |t| && t[i].name == name
      {
        if name in c && name != it.name {
          var i :| 0 <= i < n && p[i].name == name;
          assert t[i].name == name;
        }
        if name !in c {
          assert forall i :: 0 <= i < n ==> t[i].name == p[i].name != name;
        }
      }
    }
  }

  /** Every item's name has the colour of its own rarity. */
  lemma {:induction false} DeriveColors(t: Table)
    requires Derive(t).Success? && DistinctNames(t)
    ensures forall i :: 0 <= i < |t| ==>
      && t[i].details.rarity != RarityNotText
      && t[i].name in Derive(t).value.colors
      && Derive(t).value.colors[t[i].name] == RarityColor(t[i].details.rarity)
    decreases |t|
  {
    DeriveFailsAtFirstNonText(t);
    DeriveColorKeys(t);
    if t != [] {
      var n := |t| - 1;
      var p, it := t[..n], t[n];
      DeriveStepColors(t);
      assert DistinctNames(p) by {
        assert forall k :: 0 <= k < n ==> p[k] == t[k];
      }
      DeriveColors(p);
      var c := Derive(t).value.colors;
      forall i | 0 <= i < |t|
        ensures c[t[i].name] == RarityColor(t[i].details.rarity)
      {
        if i < n {
          assert t[i] == p[i] && t[i].name != it.name;
        }
      }
    }
  }

  /** What the result display relies on: every corpus entry leads back
      through the lower-case map to a canonical name that has a colour and
      details in the table. */
  predicate IndexValid(x: Index) {
    && (forall i :: 0 <= i < |x.lowerNames| ==> x.lowerNames[i] in x.lowerToOriginal)
    && forall key :: key in x.lowerToOriginal ==>
         && Lower(x.lowerToOriginal[key]) == key
         && x.lowerToOriginal[key] in x.colors
         && Lookup(x.db, x.lowerToOriginal[key]).Some?
  }

  /** A successfully processed table gives a consistent index. */
  lemma DeriveValid(t: Table)
    requires Derive(t).Success? && DistinctNames(t)
    ensures IndexValid(Derive(t).value)
  {
    var x := Derive(t).value;
    DeriveLowerNames(t);
    DeriveLowerToOriginal(t);
    DeriveColorKeys(t);
    forall i | 0 <= i < |x.lowerNames|
      ensures x.lowerNames[i] in x.lowerToOriginal
    {
      assert LastWithLower(t, x.lowerNames[i]) >= 0;
    }
    forall key | key in x.lowerToOriginal
      ensures x.lowerToOriginal[key] in x.colors && Lookup(x.db, x.lowerToOriginal[key]).Some?
    {
      var j := LastWithLower(t, key);
      assert x.lowerToOriginal[key] == t[j].name;
    }
  }

  /** Upper-casing the rarity names as the embedded table spells them. */
  lemma UpperOfRarityNames()
    ensures Upper("Common") == "COMMON" && Upper("Uncommon") == "UNCOMMON"
    ensures Upper("Rare") == "RARE" && Upper("Epic") == "EPIC"
    ensures Upper("Legendary") == "LEGENDARY"
  {
    var c, u, r, e, l := Upper("Common"), Upper("Uncommon"), Upper("Rare"), Upper("Epic"), Upper("Legendary");
    assert forall i :: 0 <= i < 6 ==> c[i] == "COMMON"[i];
    assert forall i :: 0 <= i < 8 ==> u[i] == "UNCOMMON"[i];
    assert forall i :: 0 <= i < 4 ==> r[i] == "RARE"[i];
    assert forall i :: 0 <= i < 4 ==> e[i] == "EPIC"[i];
    assert forall i :: 0 <= i < 9 ==> l[i] == "LEGENDARY"[i];
  }

  /** Names that differ in length or in first letter are distinct. */
  lemma DistinctBySignature(t: Table, lengths: seq<int>, initials: string)
    requires |lengths| == |t| && |initials| == |t|
    requires forall i :: 0 <= i < |t| ==> |t[i].name| == lengths[i] && t[i].name != [] && t[i].name[0] == initials[i]
    requires forall i, j :: 0 <= i < j < |t| ==> lengths[i] != lengths[j] || initials[i] != initials[j]
    ensures DistinctNames(t)
  {
  }

  /** No two of the eleven embedded names agree on both their length and
      their first letter. */
  lemma SignaturesDistinct()
    ensures var lengths, initials := [17, 9, 10, 9, 9, 22, 13, 17, 11, 14, 11], "MMMDCCIQFNS";
      forall i, j :: 0 <= i < j < 11 ==> lengths[i] != lengths[j] || initials[i] != initials[j]
  {
  }

  /** The embedded table has eleven items with distinct names. */
  lemma DefaultItemDbNames()
    ensures |DefaultItemDb| == 11 && DistinctNames(DefaultItemDb)
  {
    var t := DefaultItemDb;
    var lengths := [17, 9, 10, 9, 9, 22, 13, 17, 11, 14, 11];
    var initials := "MMMDCCIQFNS";
    assert forall i :: 0 <= i < 11 ==> |t[i].name| == lengths[i] && t[i].name[0] == initials[i];
    SignaturesDistinct();
    DistinctBySignature(t, lengths, initials);
  }

  /** Each embedded item has a price and a rarity that is one of the five
      known names. */
  lemma DefaultItemDbDetails()
    ensures forall i :: 0 <= i < |DefaultItemDb| ==>
      && DefaultItemDb[i].details.price.Some? && DefaultItemDb[i].details.price.value >= 0
      && DefaultItemDb[i].details.rarity.RarityText? && Upper(DefaultItemDb[i].details.rarity.text) in RarityColors
  {
    UpperOfRarityNames();
  }

  /** The embedded table: eleven items with distinct names, each with a price
      and a rarity that is one of the five known names. */
  lemma DefaultItemDbShape()
    ensures |DefaultItemDb| == 11 && DistinctNames(DefaultItemDb)
    ensures forall i :: 0 <= i < |DefaultItemDb| ==>
      && DefaultItemDb[i].details.price.Some? && DefaultItemDb[i].details.price.value >= 0
      && DefaultItemDb[i].details.rarity.RarityText? && Upper(DefaultItemDb[i].details.rarity.text) in RarityColors
  {
    DefaultItemDbNames();
    DefaultItemDbDetails();
  }

  /** A missing, malformed or unreadable file loads the eleven embedded items;
      only a missing file in a non-packaged run writes the seed file. */
  lemma FallbackLoads(outcome: FileOutcome, frozen: bool)
    requires !outcome.Parsed?
    ensures var c := ChooseSource(outcome, frozen);
      && Derive(c.table).Success?
      && |Derive(c.table).value.lowerNames| == 11
      && IndexValid(Derive(c.table).value)
      && (c.seedWrite <==> outcome == NotFound && !frozen)
  {
    var t := ChooseSource(outcome, frozen).table;
    DefaultItemDbShape();
    DeriveFailsAtFirstNonText(t);
    DeriveLowerNames(t);
    DeriveValid(t);
  }

  /** The processing loop of `load_data`. */
  method BuildIndex(t: Table) returns (r: Result<Index, nat>)
    ensures r == Derive(t)
  {
    var lowerNames: seq<string> := [];
    var colors: map<string, string> := map[];
    var lowerToOriginal: map<string, string> := map[];
    var i := 0;
    while i < |t|
      invariant 0 <= i <= |t|
      invariant Derive(t[..i]) == Success(Index(t[..i], lowerNames, colors, lowerToOriginal))
    {
      var it := t[i];
      var lowerName := Lower(it.name);
      lowerNames := lowerNames + [lowerName];
      lowerToOriginal := lowerToOriginal[lowerName := it.name];
      var key := RarityKey(it.details.rarity);
      assert t[..i + 1][..i] == t[..i] && t[..i + 1][i] == it;
      if key.None? {
        DeriveFailurePersists(t, i + 1);
        return Failure(i);
      }
      colors := colors[it.name := ColorForKey(key.value)];
      i := i + 1;
    }
    assert t[..|t|] == t;
    r := Success(Index(t, lowerNames, colors, lowerToOriginal));
  }

  /** `load_data`: choose the source, then process it. The seed write, when it
      happens, comes before the processing, so it is reported even when the
      processing raises. */
  method LoadData(outcome: FileOutcome, frozen: bool) returns (seedWrite: bool, r: Result<Index, nat>)
    ensures seedWrite <==> outcome == NotFound && !frozen
    ensures r == Derive(ChooseSource(outcome, frozen).table)
  {
    var choice := ChooseSource(outcome, frozen);
    seedWrite := choice.seedWrite;
    r := BuildIndex(choice.table);
  }
}
