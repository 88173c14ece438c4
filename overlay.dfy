/** The overlay window's state machine (`SearchOverlay.show_overlay`,
    `hide_overlay`, `minimize_to_tray`, `done_clicked`, `update_results`). */
module Overlay {
  import opened Basics
  import opened Text
  import opened Database
  import opened Display
  import Hotkey

  /** The value `keyboard.add_hotkey` returns for the Esc listener. */
  type Handle = nat

  /** The part of the window the core reads and writes. */
  datatype OverlayState = OverlayState(
    visible: bool,
    escListener: Option<Handle>,
    entryText: string,
    caption: Label)

  const WaitingLabel: Label := Label("Waiting for input...", "#777777")
  const ReadyLabel: Label := Label("Ready", "#ffcc00")

  /** `show_overlay`; `handle` is what a new Esc registration returns. The
      overlay becomes visible with an empty entry and the waiting caption, and
      holds an Esc listener: the one it held before, if any. */
  function Shown(s: OverlayState, handle: Handle): (s': OverlayState)
    ensures s'.visible && s'.entryText == "" && s'.caption == WaitingLabel
    ensures s'.escListener.Some?
    ensures s.escListener.Some? ==> s'.escListener == s.escListener
  {
    OverlayState(
      true,
      if s.escListener.None? then Some(handle) else s.escListener,
      "",
      WaitingLabel)
  }

  /** `hide_overlay`; `removalRaises` tells whether `keyboard.remove_hotkey`
      raises, in which case the handle is kept. The overlay becomes hidden,
      keeps its entry and caption, and holds a listener afterwards only when
      it held one and its removal raised. */
  function Hidden(s: OverlayState, removalRaises: bool): (h: OverlayState)
    ensures !h.visible && h.entryText == s.entryText && h.caption == s.caption
    ensures h.escListener.Some? <==> s.escListener.Some? && removalRaises
    ensures h.escListener.Some? ==> h.escListener == s.escListener
  {
    s.(visible := false,
       escListener := if s.escListener.Some? && removalRaises then s.escListener else None)
  }

  /** A second show registers nothing new: the listener of the first stays. */
  lemma ShowArmsOnce(s: OverlayState, h1: Handle, h2: Handle)
    ensures Shown(Shown(s, h1), h2) == Shown(s, h1)
  {
  }

  /** A hide whose removal succeeds leaves the overlay hidden and disarmed and
      keeps the entry and the label; hiding again changes nothing. */
  lemma HideDisarms(s: OverlayState, again: bool)
    ensures var s' := Hidden(s, false);
      && !s'.visible && s'.escListener.None?
      && s'.entryText == s.entryText && s'.caption == s.caption
      && Hidden(s', again) == s'
  {
  }

  /** A hide whose removal raises keeps the handle, so a later hide retries
      the removal. */
  lemma FailedRemovalKeepsListener(s: OverlayState)
    requires s.escListener.Some?
    ensures Hidden(s, true).escListener == s.escListener
    ensures Hidden(Hidden(s, true), false).escListener.None?
  {
  }

  /** Whether the window title is the game's for `done_clicked`: the
      upper-cased keyword, `ARC RAIDERS`, occurs in the upper-cased title, so
      the title has at least as many characters. */
  predicate IsGameTitle(title: string): (b: bool)
    ensures b <==> Contains(Upper(title), "ARC RAIDERS")
    ensures b ==> |title| >= 11
  {
    UpperKeyword();
    Contains(Upper(title), Upper(Hotkey.TargetWindowKeyword))
  }

  /** The enumeration in `done_clicked`: titles in `EnumWindows` order, the
      callback raising to stop at the first game window. Returns the index
      focused, if any, and how many windows the callback saw. */
  method FindGameWindow(titles: seq<string>) returns (focused: Option<nat>, examined: nat)
    ensures focused.Some? ==>
      && focused.value < |titles| && IsGameTitle(titles[focused.value])
      && forall j :: 0 <= j < focused.value ==> !IsGameTitle(titles[j])
    ensures focused.None? ==> forall j :: 0 <= j < |titles| ==> !IsGameTitle(titles[j])
    ensures examined == if focused.Some? then focused.value + 1 else |titles|
  {
    var target := Upper(Hotkey.TargetWindowKeyword);
    examined := 0;
    while examined < |titles|
      invariant examined <= |titles|
      invariant forall j :: 0 <= j < examined ==> !IsGameTitle(titles[j])
    {
      var title := titles[examined];
      examined := examined + 1;
      if Contains(Upper(title), target) {
        return Some(examined - 1), examined;
      }
    }
    focused := None;
  }

  class SearchOverlay {
    var visible: bool
    var escListener: Option<Handle>
    var entryText: string
    var caption: Label

    /** The state as a value. */
    function State(): OverlayState
      reads this
    {
      OverlayState(visible, escListener, entryText, caption)
    }

    /** The window starts withdrawn, with an empty entry, the `Ready` caption
        and no Esc listener. */
    constructor ()
      ensures State() == OverlayState(false, None, "", ReadyLabel)
    {
      visible := false;
      escListener := None;
      entryText := "";
      caption := ReadyLabel;
    }

    /** `show_overlay`. Reports whether a new Esc listener was registered. */
    method ShowOverlay(handle: Handle) returns (registered: bool)
      modifies this
      ensures State() == Shown(old(State()), handle)
      ensures registered <==> old(escListener).None?
    {
      visible := true;
      entryText := "";
      caption := WaitingLabel;
      registered := escListener.None?;
      if registered {
        escListener := Some(handle);
      }
    }

    /** `hide_overlay`, also bound to Enter in the entry. */
    method HideOverlay(removalRaises: bool)
      modifies this
      ensures State() == Hidden(old(State()), removalRaises)
    {
      visible := false;
      if escListener.Some? {
        if !removalRaises {
          escListener := None;
        }
      }
    }

    /** `minimize_to_tray`: the window's close control hides the overlay. */
    method MinimizeToTray(removalRaises: bool)
      modifies this
      ensures State() == Hidden(old(State()), removalRaises)
    {
      HideOverlay(removalRaises);
    }

    /** `done_clicked`: hide, then focus the first game window. */
    method DoneClicked(titles: seq<string>, removalRaises: bool) returns (focused: Option<nat>)
      modifies this
      ensures State() == Hidden(old(State()), removalRaises)
      ensures focused.Some? ==>
        && focused.value < |titles| && IsGameTitle(titles[focused.value])
        && forall j :: 0 <= j < focused.value ==> !IsGameTitle(titles[j])
      ensures focused.None? ==> forall j :: 0 <= j < |titles| ==> !IsGameTitle(titles[j])
    {
      HideOverlay(removalRaises);
      var examined;
      focused, examined := FindGameWindow(titles);
    }

    /** A key release in the entry: the entry now holds `text`, and
        `update_results` reads it and sets the caption it computes. */
    method KeyRelease(text: string, x: Index, matcher: Matcher)
      requires IndexValid(x) && PicksFromCorpus(matcher)
      modifies this
      ensures var u := UpdateResults(text, x, matcher);
        State() == old(State()).(entryText := text, caption := if u.SetLabel? then u.shown else old(caption))
    {
      entryText := text;
      var u := UpdateResults(entryText, x, matcher);
      if u.SetLabel? {
        caption := u.shown;
      }
    }
  }

  lemma UpperKeyword()
    ensures Upper(Hotkey.TargetWindowKeyword) == "ARC RAIDERS"
  {
    var u := Upper(Hotkey.TargetWindowKeyword);
    assert forall i :: 0 <= i < 11 ==> u[i] == "ARC RAIDERS"[i];
  }

  /** A title that mentions the game after other words is a game title for
      `done_clicked` ... */
  lemma MentionsGameLateFocused()
    ensures IsGameTitle("Playing ARC Raiders")
  {
    var u := Upper("Playing ARC Raiders");
    assert forall i :: 0 <= i < 11 ==> u[8 + i] == "ARC RAIDERS"[i];
    assert OccursAt(u, "ARC RAIDERS", 8);
  }

  /** ... but not for the hotkey guard, whose cleaned title starts with `P`. */
  lemma MentionsGameLateIgnored()
    ensures Hotkey.OnHotkey("Playing ARC Raiders", Hotkey.TargetWindowKeyword) == Hotkey.Ignore
  {
    var t := "Playing ARC Raiders";
    Hotkey.CleanCons(t[0], t[1..]);
    assert [t[0]] + t[1..] == t;
    assert Hotkey.Clean(t)[0] == 'P';
    Hotkey.ConfiguredHotkey(t);
  }

  /** A title that spells the game's name with a hyphen is not a game title
      for `done_clicked` ... */
  lemma HyphenatedNameNotFocused()
    ensures !IsGameTitle("ARC-Raiders")
  {
    var u := Upper("ARC-Raiders");
    assert u[3] == '-';
    assert !OccursAt(u, "ARC RAIDERS", 0);
  }

  /** ... but the hotkey guard accepts it: it cleans to `ARCRAIDERS`. */
  lemma HyphenatedNameShows()
    ensures Hotkey.OnHotkey("ARC-Raiders", Hotkey.TargetWindowKeyword) == Hotkey.ScheduleShow
  {
    Hotkey.HyphenatedTitleFiltered();
    Hotkey.UpperOfFilteredKeyword();
    assert Hotkey.Clean("ARC-Raiders") == "ARCRAIDERS";
    Hotkey.ConfiguredHotkey("ARC-Raiders");
  }

  /** The two title tests differ: `done_clicked` looks for the keyword
      anywhere in the raw upper-cased title, the hotkey guard for it at the
      start of the cleaned title. */
  lemma TitleTestsDiffer()
    ensures IsGameTitle("Playing ARC Raiders")
    ensures Hotkey.OnHotkey("Playing ARC Raiders", Hotkey.TargetWindowKeyword) == Hotkey.Ignore
    ensures !IsGameTitle("ARC-Raiders")
    ensures Hotkey.OnHotkey("ARC-Raiders", Hotkey.TargetWindowKeyword) == Hotkey.ScheduleShow
  {
    MentionsGameLateFocused();
    MentionsGameLateIgnored();
    HyphenatedNameNotFocused();
    HyphenatedNameShows();
  }
}
