# ARC Raiders Market overlay — a Dafny model of its core

ARC Raiders Market is a small desktop overlay for the game ARC Raiders. It
loads a table of items, each with a price and a rarity, from a JSON file next
to the program, or from a table embedded in the program. A global hotkey,
pressed while the game window is in front, shows a search box. Each key
release in the box looks up the typed name and shows the closest item's price
in its rarity's colour. Pressing Esc or Enter hides the box. The Done button
also hides it and gives the focus back to the game window.

This project models that core and proves properties of it:

- `basics.dfy` (`Basics`): `Option` and `Result`.
- `text.dfy` (`Text`): ASCII character classes, `str.upper()`/`str.lower()`,
  prefix and substring tests.
- `hotkey.dfy` (`Hotkey`): `clean_string` and the decision `on_hotkey` takes.
- `thousands.dfy` (`Thousands`): the `"{:,}"` integer format, with a
  reference parser that reads it back.
- `database.dfy` (`Database`): `RARITY_COLORS`, `DEFAULT_ITEM_DB`, the choice
  of data source in `load_data`, and its processing loop. The loop is modelled
  twice: as the specification function `Derive`, and as the loop method
  `BuildIndex` proved equal to it.
- `display.dfy` (`Display`): `update_results`, as the label text and colour
  it sets.
- `overlay.dfy` (`Overlay`): the window as a class whose methods are
  `show_overlay`, `hide_overlay`, `minimize_to_tray`, `done_clicked` and the
  key-release handler. The window search of `done_clicked` is the loop method
  `FindGameWindow`.

Things the program gets from its environment become parameters:

- the outcome of opening and parsing the JSON file (`FileOutcome`);
- whether the program runs as a packaged executable (`frozen`);
- the foreground window title;
- the window titles in enumeration order;
- the handle returned by the Esc registration;
- whether removing that registration raises;
- the close-match search (`Matcher`).

Two behaviours of the code are worth knowing:

- The docstring of `load_data` (ARC_Raiders_Market.py:57-58) promises a
  fallback to the embedded table for a missing or corrupted file. Yet the
  processing loop calls `.upper()` on each item's `rarity` (line 109), which
  raises out of `load_data` on a value that is not a string (a number,
  `null`). `Derive` returns `Failure(i)` at the first such item `i`.
- `done_clicked` (lines 411-418) upper-cases the raw window title and looks
  for `ARC RAIDERS` anywhere in it. `on_hotkey` (lines 477-482) instead
  cleans both strings and tests for a prefix. `IsGameTitle` follows
  `done_clicked`. `TitleTestsDiffer` shows one title that only the Done
  button accepts and one that only the hotkey accepts.

A JSON object's keys are unique, so the lemmas about a loaded table take
`DistinctNames(t)` as a precondition. The loop itself does not need it.

## Model

| member | source | states |
|---|---|---|
| Text.Upper | ARC_Raiders_Market.py:473 | `upper()` keeps the length, maps each ASCII lower-case letter to its upper-case letter and leaves every other character alone |
| Text.Lower | ARC_Raiders_Market.py:104 | `lower()` keeps the length, maps each ASCII upper-case letter to its lower-case letter and leaves every other character alone |
| Hotkey.KeepAlnum | ARC_Raiders_Market.py:473 | removing `[^a-zA-Z0-9]` leaves no longer a text made only of `[a-zA-Z0-9]` |
| Hotkey.Clean | ARC_Raiders_Market.py:471-473 | a cleaned string holds only `A-Z` and `0-9` and is no longer than its input |
| Hotkey.CleanCons | ARC_Raiders_Market.py:471-473 | cleaning a first character then the rest: an alphanumeric first character is kept upper-cased, any other is dropped |
| Hotkey.CleanIsSubsequenceOfUpper | ARC_Raiders_Market.py:471-473 | cleaning keeps characters in their order: the cleaned string is a subsequence of the upper-cased input |
| Hotkey.CleanFixesCleanText | ARC_Raiders_Market.py:471-473 | text made only of `A-Z` and `0-9` cleans to itself |
| Hotkey.CleanIdempotent | ARC_Raiders_Market.py:471-473 | cleaning twice gives the same as cleaning once |
| Hotkey.KeepAlnumOfAlnum | ARC_Raiders_Market.py:473 | the filter keeps text of `[a-zA-Z0-9]` unchanged |
| Hotkey.KeepAlnumDropsOne | ARC_Raiders_Market.py:473 | text with one character outside the class loses exactly that character |
| Hotkey.OnHotkey | ARC_Raiders_Market.py:475-486 | the overlay is scheduled if and only if the cleaned keyword has at least three characters and is a prefix of the cleaned title; otherwise the press is ignored |
| Hotkey.TargetKeywordCleaned | ARC_Raiders_Market.py:23 | the keyword `ARC Raiders` cleans to `ARCRAIDERS` |
| Hotkey.ConfiguredHotkey | ARC_Raiders_Market.py:475-486 | with the shipped keyword, the overlay is scheduled exactly when the cleaned title starts with `ARCRAIDERS` |
| Hotkey.HotkeyIgnoresPunctuationAndCase | ARC_Raiders_Market.py:475-486 | a title and its cleaned form get the same answer |
| Thousands.Decimal | ARC_Raiders_Market.py:359 | a natural number's decimal digits: non-empty, digits only, no leading zero except for 0 |
| Thousands.DecimalRoundTrip | ARC_Raiders_Market.py:359 | the digits read back as the number |
| Thousands.Group | ARC_Raiders_Market.py:359 | grouping adds one comma per full group of three digits before the last, and puts a comma exactly every fourth position from the right |
| Thousands.StripCommasAppend | ARC_Raiders_Market.py:359 | removing commas distributes over concatenation |
| Thousands.GroupStripsBack | ARC_Raiders_Market.py:359 | removing the commas of a grouped digit string gives the digits back |
| Thousands.FormatThousandsDigits | ARC_Raiders_Market.py:359 | `"{:,}".format(n)` without its commas is the sign followed by the decimal digits of the magnitude |
| Thousands.GroupLayout | ARC_Raiders_Market.py:359 | for `n >= 0` the formatted text has a first group of one to three digits, a comma exactly every fourth position from the right, and digits everywhere else |
| Thousands.FormatThousands | ARC_Raiders_Market.py:359 | `"{:,}".format(n)` is non-empty, starts with `-` exactly for negative `n`, and reads back as `n` for every integer |
| Database.Lookup | ARC_Raiders_Market.py:354 | `ITEM_DB[name]` finds details exactly when some item has that name, and with distinct names they are that item's details |
| Database.RarityKey | ARC_Raiders_Market.py:109 | the lookup key is missing exactly when the rarity is not a string (`.upper()` raises); otherwise it has no lower-case letter, and a string rarity keeps its length |
| Database.RarityColor | ARC_Raiders_Market.py:109-110 | any colour other than COMMON's belongs to a string rarity whose upper case is a key of `RARITY_COLORS` |
| Database.ColorForKey | ARC_Raiders_Market.py:110 | any colour other than COMMON's comes from a key of `RARITY_COLORS`, under that key |
| Database.RarityColorDefaults | ARC_Raiders_Market.py:109-110 | a missing rarity, or one whose upper case is not one of the five names, gets the COMMON colour; a known name in any letter case gets its own colour |
| Database.RarityColorCaseInsensitive | ARC_Raiders_Market.py:109-110 | rarities that agree after upper-casing get the same colour |
| Database.ChooseSource | ARC_Raiders_Market.py:60-95 | the parsed file is used when it loads; otherwise the embedded table is used, and the seed file is written exactly when the file is missing and the program is not packaged |
| Database.AddLast | ARC_Raiders_Market.py:103-110 | processing one item fails exactly when its rarity is not a string, and then at that item; otherwise the corpus grows by one and the item's name gets a colour and a lower-case entry |
| Database.Derive | ARC_Raiders_Market.py:97-112 | a failed run names an item whose rarity is not a string; a successful run returns the table as chosen with one corpus entry per item |
| Database.DeriveFailurePersists | ARC_Raiders_Market.py:103-110 | once an item raises, the items after it are never processed |
| Database.DeriveStepNames | ARC_Raiders_Market.py:103-106 | a successful step keeps the table and appends the last item's lower-case name to the corpus |
| Database.DeriveStepColors | ARC_Raiders_Market.py:109-110 | a successful step gives the last item's name the colour of its rarity |
| Database.DeriveStepLowerMap | ARC_Raiders_Market.py:107 | a successful step maps the last item's lower-case name to its name, replacing an earlier entry |
| Database.DeriveFailsAtFirstNonText | ARC_Raiders_Market.py:103-110 | processing succeeds if and only if no item has a rarity that is not a string; when it fails, it fails at the first such item |
| Database.DeriveLowerNames | ARC_Raiders_Market.py:98-106 | the table is returned as chosen, and the corpus has one entry per item, in table order, each the item's name in lower case |
| Database.LastWithLower | ARC_Raiders_Market.py:107 | the position of the last item with a given lower-case name, or -1 when there is none |
| Database.DeriveLowerToOriginal | ARC_Raiders_Market.py:107 | the lower-case map's keys are exactly the lower-case names, and each maps to the name of the last item with that lower-case name |
| Database.LowerToOriginalConsistent | ARC_Raiders_Market.py:107 | every entry of the lower-case map leads to a name of the table whose lower case is the key |
| Database.DeriveColorKeys | ARC_Raiders_Market.py:110 | exactly the names of the table have a colour |
| Database.DeriveColors | ARC_Raiders_Market.py:109-110 | each item's name has the colour of its own rarity |
| Database.DeriveValid | ARC_Raiders_Market.py:98-112 | the four results agree: every corpus entry maps to a name with a colour and details |
| Database.DefaultItemDbNames | ARC_Raiders_Market.py:38-50 | the embedded table has eleven distinct names |
| Database.DefaultItemDbDetails | ARC_Raiders_Market.py:38-50 | every embedded item has a non-negative price and one of the five rarity names |
| Database.DefaultItemDbShape | ARC_Raiders_Market.py:38-50 | the two facts above together |
| Database.FallbackLoads | ARC_Raiders_Market.py:60-112 | when the file is missing, malformed or unreadable, loading succeeds with eleven corpus entries and a consistent index |
| Database.BuildIndex | ARC_Raiders_Market.py:97-112 | the processing loop computes `Derive`: the same structures, or failure at the same item |
| Database.LoadData | ARC_Raiders_Market.py:56-112 | `load_data` chooses the source, writes the seed exactly when the file is missing outside a package, and processes the chosen table |
| Display.UpdateResults | ARC_Raiders_Market.py:341-362 | a query under three characters shows `...` in grey; no match shows `No match`; a match shows its canonical name and formatted price in its colour; a match without a price leaves the label unchanged |
| Display.ShortQueryIgnoresMatcher | ARC_Raiders_Market.py:344-346 | a short query's label does not depend on the search |
| Display.PriceText | ARC_Raiders_Market.py:359-360 | the shown text is the name, `: $`, and a price that reads back as the stored one |
| Display.MatchShowsItsOwnRarityAndPrice | ARC_Raiders_Market.py:341-362 | on a loaded table, a match shows the price of the last item with the matched lower-case name, in that item's own rarity colour |
| Display.ScrapMetalExample | ARC_Raiders_Market.py:341-362 | with the embedded table, a search picking `scrap metal` shows `Scrap Metal: $10` in the COMMON colour |
| Overlay.Shown | ARC_Raiders_Market.py:433-449 | after a show the window is visible with an empty entry, the waiting caption and an Esc listener, the one held before if any |
| Overlay.Hidden | ARC_Raiders_Market.py:451-459 | after a hide the window is not visible, keeps entry and caption, and holds a listener only when it held one and the removal raised |
| Overlay.IsGameTitle | ARC_Raiders_Market.py:411-418 | a title is the game's for `done_clicked` exactly when its upper case contains `ARC RAIDERS`, so it has at least 11 characters |
| Overlay.ShowArmsOnce | ARC_Raiders_Market.py:448-449 | a second show registers no second Esc listener |
| Overlay.HideDisarms | ARC_Raiders_Market.py:451-459 | a hide whose removal succeeds leaves the window hidden without a listener, keeps entry and caption, and a further hide changes nothing |
| Overlay.FailedRemovalKeepsListener | ARC_Raiders_Market.py:454-459 | a removal that raises keeps the handle, so a later hide retries it |
| Overlay.FindGameWindow | ARC_Raiders_Market.py:416-425 | the window focused is the first whose upper-cased title contains `ARC RAIDERS`, and none is focused when no title does; the enumeration stops right after it |
| Overlay.SearchOverlay.constructor | ARC_Raiders_Market.py:288-314 | the window starts withdrawn with an empty entry, the `Ready` caption and no Esc listener |
| Overlay.SearchOverlay.ShowOverlay | ARC_Raiders_Market.py:433-449 | the state after `show_overlay`; a listener is registered exactly when none was held |
| Overlay.SearchOverlay.HideOverlay | ARC_Raiders_Market.py:451-459 | the state after `hide_overlay` |
| Overlay.SearchOverlay.MinimizeToTray | ARC_Raiders_Market.py:319-322 | closing the window hides the overlay |
| Overlay.SearchOverlay.DoneClicked | ARC_Raiders_Market.py:408-431 | the overlay is hidden, then the first game window, if any, is focused |
| Overlay.SearchOverlay.KeyRelease | ARC_Raiders_Market.py:341-362 | after a key release the entry holds the typed text and the caption is what `update_results` computes for it; nothing else changes |
| Overlay.TitleTestsDiffer | ARC_Raiders_Market.py:411-418 | `Playing ARC Raiders` is focused by Done but ignored by the hotkey; `ARC-Raiders` is ignored by Done but accepted by the hotkey |

## Left out

- Text.Upper: maps only ASCII letters. Python's `upper()` also maps other letters (`é` to `É`, `ß` to `SS`), which can change the length.
- Text.Lower: maps only ASCII letters. Python's `lower()` also maps other letters (`É` to `é`, `İ` to `i̇`), which can change the length.
- Display.UpdateResults: the close-match search (`difflib.get_close_matches` with `n=1`, `cutoff=0.5`) is a parameter. The model assumes only that it returns a corpus entry or nothing; its similarity ranking is not modelled.
- Database.LoadData: reading and writing the file, the directory lookup and `json` are not modelled. The outcome of opening and parsing is a parameter, and a failed seed write is not modelled, since it is caught and only printed.
- A parsed file whose top level is not an object, an item whose details are not an object, and prices that are not integers (floats, strings) are not modelled. A price is an integer or missing.
- The Esc handle is assumed truthy. `keyboard.add_hotkey` returns a function, so the `is None` test in `show_overlay` and the truth test in `hide_overlay` agree.
- The window layout, fonts, icon and tray icon are not modelled, nor are `quit_app` and the application's startup.
- Keyboard hooks, and the `after` scheduling of `show_overlay`, `hide_overlay` and the clicks, are not modelled. The hotkey decision returns whether it schedules a show.
- The clicks and their threads (`click_and_focus`, `_force_center_click`) are not modelled, nor are `SetForegroundWindow` and its failures, timing, or printing.
- Overlay.SearchOverlay.ShowOverlay: `topmost` and `lift` are not modelled; the window is only visible or not.
