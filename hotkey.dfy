/** Title cleaning and the global hotkey guard (`clean_string`, `on_hotkey`). */
module Hotkey {
  import opened Text

  /** `TARGET_WINDOW_KEYWORD`: the title of the game window. */
  const TargetWindowKeyword: string := "ARC Raiders"

  /** `re.sub(r'[^a-zA-Z0-9]', '', s)`: drop every character outside the class. */
  function KeepAlnum(s: string): (r: string)
    ensures |r| <= |s|
    ensures forall i :: 0 <= i < |r| ==> IsAsciiAlnum(r[i])
  {
    if s == [] then []
    else if IsAsciiAlnum(s[0]) then [s[0]] + KeepAlnum(s[1..])
    else KeepAlnum(s[1..])
  }

  /** `clean_string`: the alphanumeric characters of `s`, upper-cased. The
      result holds only `A-Z` and `0-9`, and is no longer than `s`. */
  function Clean(s: string): (r: string)
    ensures |r| <= |s|
    ensures forall i :: 0 <= i < |r| ==> IsUpperAlnum(r[i])
  {
    Upper(KeepAlnum(s))
  }

  /** Cleaning distributes over a first character. */
  lemma CleanCons(c: char, s: string)
    ensures Clean([c] + s) == (if IsAsciiAlnum(c) then [UpperChar(c)] else []) + Clean(s)
  {
    assert ([c] + s)[1..] == s;
  }

  /** The kept characters appear in their original order: the cleaned text is
      a subsequence of the upper-cased input. */
  lemma {:induction false} CleanIsSubsequenceOfUpper(s: string)
    ensures IsSubsequence(Clean(s), Upper(s))
  {
    if s != [] {
      CleanIsSubsequenceOfUpper(s[1..]);
      CleanCons(s[0], s[1..]);
      assert [s[0]] + s[1..] == s;
      var u := Upper(s);
      assert u[1..] == Upper(s[1..]);
      if IsAsciiAlnum(s[0]) {
        assert Clean(s)[0] == u[0];
        assert Clean(s)[1..] == Clean(s[1..]);
      } else if Clean(s) != [] {
        assert Clean(s) == Clean(s[1..]);
      }
    }
  }

  /** Text already made of `A-Z` and `0-9` is left as it is. */
  lemma {:induction false} CleanFixesCleanText(t: string)
    requires forall i :: 0 <= i < |t| ==> IsUpperAlnum(t[i])
    ensures Clean(t) == t
  {
    if t != [] {
      CleanFixesCleanText(t[1..]);
      CleanCons(t[0], t[1..]);
      assert [t[0]] + t[1..] == t;
    }
  }

  /** Cleaning twice is cleaning once. */
  lemma CleanIdempotent(s: string)
    ensures Clean(Clean(s)) == Clean(s)
  {
    CleanFixesCleanText(Clean(s));
  }

  /** What a press of the global hotkey does. */
  datatype HotkeyAction = ScheduleShow | Ignore

  /** `on_hotkey`, given the foreground window title (`""` when it cannot be
      read) and the configured keyword. */
  function OnHotkey(title: string, keyword: string): (a: HotkeyAction)
    ensures a == ScheduleShow <==>
      var t, k := Clean(title), Clean(keyword);
      3 <= |k| <= |t| && forall i :: 0 <= i < |k| ==> t[i] == k[i]
  {
    if StartsWith(Clean(title), Clean(keyword)) && |Clean(keyword)| >= 3
    then ScheduleShow
    else Ignore
  }

  /** Filtering keeps text made only of `[a-zA-Z0-9]` as it is. */
  lemma {:induction false} KeepAlnumOfAlnum(s: string)
    requires forall i :: 0 <= i < |s| ==> IsAsciiAlnum(s[i])
    ensures KeepAlnum(s) == s
  {
    if s != [] {
      KeepAlnumOfAlnum(s[1..]);
    }
  }

  /** Filtering text with a single character outside the class drops just
      that character. */
  lemma {:induction false} KeepAlnumDropsOne(s: string, p: nat)
    requires p < |s| && !IsAsciiAlnum(s[p])
    requires forall i :: 0 <= i < |s| && i != p ==> IsAsciiAlnum(s[i])
    ensures KeepAlnum(s) == s[..p] + s[p + 1..]
  {
    var rest := s[1..];
    assert forall i :: 0 <= i < |rest| ==> rest[i] == s[i + 1];
    if p == 0 {
      KeepAlnumOfAlnum(rest);
    } else {
      KeepAlnumDropsOne(rest, p - 1);
      assert KeepAlnum(s) == [s[0]] + KeepAlnum(rest);
      assert [s[0]] + (rest[..p - 1] + rest[p..]) == s[..p] + s[p + 1..];
    }
  }

  /** Only the space of the configured keyword lies outside `[a-zA-Z0-9]`. */
  lemma TargetKeywordFiltered()
    ensures KeepAlnum(TargetWindowKeyword) == "ARCRaiders"
  {
    var k := TargetWindowKeyword;
    assert forall i :: 0 <= i < |k| && i != 3 ==> IsAsciiAlnum(k[i]);
    assert k[..3] + k[4..] == "ARCRaiders";
    KeepAlnumDropsOne(k, 3);
  }

  /** A title that spells the game's name with a hyphen filters to the same
      text as the keyword. */
  lemma HyphenatedTitleFiltered()
    ensures KeepAlnum("ARC-Raiders") == "ARCRaiders"
  {
    var t := "ARC-Raiders";
    assert forall i :: 0 <= i < |t| && i != 3 ==> IsAsciiAlnum(t[i]);
    assert t[..3] + t[4..] == "ARCRaiders";
    KeepAlnumDropsOne(t, 3);
  }

  lemma UpperOfFilteredKeyword()
    ensures Upper("ARCRaiders") == "ARCRAIDERS"
  {
    var u := Upper("ARCRaiders");
    assert forall i :: 0 <= i < 10 ==> u[i] == "ARCRAIDERS"[i];
  }

  /** The configured keyword cleans to `ARCRAIDERS`. */
  lemma TargetKeywordCleaned()
    ensures Clean(TargetWindowKeyword) == "ARCRAIDERS"
  {
    TargetKeywordFiltered();
    UpperOfFilteredKeyword();
  }

  /** With the shipped keyword the length guard always passes: the overlay is
      scheduled exactly when the cleaned title starts with `ARCRAIDERS`, and
      every other title is ignored. */
  lemma ConfiguredHotkey(title: string)
    ensures OnHotkey(title, TargetWindowKeyword) == ScheduleShow <==> StartsWith(Clean(title), "ARCRAIDERS")
  {
    TargetKeywordCleaned();
  }

  /** Titles that differ only in punctuation, spacing and letter case get the
      same answer. */
  lemma HotkeyIgnoresPunctuationAndCase(title: string)
    ensures OnHotkey(title, TargetWindowKeyword) == OnHotkey(Clean(title), TargetWindowKeyword)
  {
    CleanIdempotent(title);
  }
}
