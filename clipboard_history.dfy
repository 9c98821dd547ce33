/**
 * The clipboard-history window: a timer that appends each new clipboard text
 * as a copy button, the Win+V hot key that brings the window back, the
 * show/hide handlers, and the hit-test rewrite that lets the borderless
 * window be dragged by its client area.
 */
module ClipboardHistory {
  import opened Hotkeys

  /** WM_NCHITTEST and the two hit-test codes the window cares about. */
  const WM_NCHITTEST: int := 0x84
  const HTCLIENT: int := 1
  const HTCAPTION: int := 2

  /** Keys.V, the virtual-key code of the V key. */
  const KeyV: bv32 := 0x56

  datatype FormWindowState = Normal | Minimized | Maximized

  /**
   * One entry of the history panel: the button's Name and its Text. The
   * click handler captures the same clipboard text the button shows, so one
   * field stands for both.
   */
  datatype CopyButton = CopyButton(name: string, text: string)

  /**
   * How a copy button's click ends: the clipboard now holds `text`, or
   * Clipboard.SetText threw ArgumentNullException because the captured text
   * was empty.
   */
  datatype ClickOutcome = Copied(text: string) | ThrewArgumentNull

  // ---------------------------------------------------------------------------
  // Hit-test rewrite

  /**
   * The form's WndProc: for WM_NCHITTEST, a base answer of "client area" is
   * turned into "caption", so the window can be dragged from anywhere; every
   * other message and every other answer passes through.
   */
  function NcHitTest(msg: int, baseResult: int): (result: int)
    ensures msg == WM_NCHITTEST ==> result != HTCLIENT
    ensures result != baseResult <==> msg == WM_NCHITTEST && baseResult == HTCLIENT
    ensures result != baseResult ==> result == HTCAPTION
  {
    if msg == WM_NCHITTEST && baseResult == HTCLIENT then HTCAPTION else baseResult
  }

  // ---------------------------------------------------------------------------
  // The Win+V filter

  /** The key-pressed handler reacts to exactly Win (alone) with V. */
  predicate IsShowHotkey(args: KeyPressedEventArgs)
  {
    args.modifier == Win && args.key == KeyV
  }

  /**
   * Through the hidden window's decode, the handler fires for exactly one
   * WM_HOTKEY payload: the one Windows packs for Win+V.
   */
  lemma ShowHotkeyMessage(lParam: bv32)
    ensures var event := WindowWndProc(WM_HOTKEY, lParam, true);
            event.Some? && IsShowHotkey(event.value) <==> lParam == PackLParam(Win, KeyV)
  {
    PackDecode(lParam);
    if lParam == PackLParam(Win, KeyV) {
      DecodePack(Win, KeyV);
    }
  }

  // ---------------------------------------------------------------------------
  // Button names

  predicate IsDigits(s: string)
  {
    forall i :: 0 <= i < |s| ==> '0' <= s[i] <= '9'
  }

  function DigitChar(d: nat): (c: char)
    requires d < 10
    ensures '0' <= c <= '9'
  {
    (48 + d) as char
  }

  /** The decimal text of n, as string interpolation writes it. */
  function DecimalString(n: nat): (s: string)
    ensures |s| >= 1 && IsDigits(s)
    ensures s[0] == '0' ==> n == 0
    decreases n
  {
    if n < 10 then [DigitChar(n)] else DecimalString(n / 10) + [DigitChar(n % 10)]
  }

  /** The number a string of decimal digits denotes. */
  function DecimalValue(s: string): (n: nat)
    requires IsDigits(s)
    decreases |s|
  {
    if s == [] then 0 else DecimalValue(s[..|s| - 1]) * 10 + (s[|s| - 1] as int - 48)
  }

  /** Reading back the decimal text of n gives n. */
  lemma {:induction false} DecimalRoundTrip(n: nat)
    ensures DecimalValue(DecimalString(n)) == n
  {
    var s := DecimalString(n);
    if n < 10 {
      assert s[..|s| - 1] == [];
    } else {
      assert s[..|s| - 1] == DecimalString(n / 10);
      DecimalRoundTrip(n / 10);
    }
  }

  const ButtonPrefix: string := "CopyButton_"

  /** The Name given to the button appended as the n-th control. */
  function ButtonName(n: nat): (name: string)
  {
    ButtonPrefix + DecimalString(n)
  }

  /** Different counts give different names. */
  lemma ButtonNamesDistinct(a: nat, b: nat)
    ensures ButtonName(a) == ButtonName(b) <==> a == b
  {
    if ButtonName(a) == ButtonName(b) {
      assert ButtonName(a)[|ButtonPrefix|..] == DecimalString(a);
      assert ButtonName(b)[|ButtonPrefix|..] == DecimalString(b);
      DecimalRoundTrip(a);
      DecimalRoundTrip(b);
    }
  }

  // ---------------------------------------------------------------------------
  // The history panel

  predicate HasText(buttons: seq<CopyButton>, text: string)
  {
    exists k :: 0 <= k < |buttons| && buttons[k].text == text
  }

  predicate DistinctTexts(buttons: seq<CopyButton>)
  {
    forall i, j :: 0 <= i < j < |buttons| ==> buttons[i].text != buttons[j].text
  }

  /** The k-th control (from 0) is named after the count k + 1. */
  predicate Numbered(buttons: seq<CopyButton>)
  {
    forall k :: 0 <= k < |buttons| ==> buttons[k].name == ButtonName(k + 1)
  }

  /** What the panel always satisfies: texts are distinct and names follow the count. */
  predicate WellFormed(buttons: seq<CopyButton>)
  {
    DistinctTexts(buttons) && Numbered(buttons)
  }

  /** Names in a numbered panel are distinct. */
  lemma NumberedNamesDistinct(buttons: seq<CopyButton>)
    requires Numbered(buttons)
    ensures forall i, j :: 0 <= i < j < |buttons| ==> buttons[i].name != buttons[j].name
  {
    forall i, j | 0 <= i < j < |buttons| ensures buttons[i].name != buttons[j].name {
      ButtonNamesDistinct(i + 1, j + 1);
    }
  }

  /** One timer tick with clipboard text `entry`: append a button unless one already shows it. */
  function Tick(buttons: seq<CopyButton>, entry: string): (r: seq<CopyButton>)
  {
    if forall k :: 0 <= k < |buttons| ==> buttons[k].text != entry then
      buttons + [CopyButton(ButtonName(|buttons| + 1), entry)]
    else
      buttons
  }

  /**
   * A tick keeps every existing button, ends with `entry` on the panel, and
   * appends exactly one button, named after the new count, precisely when
   * no button showed `entry`.
   */
  lemma TickAppendsIfAbsent(buttons: seq<CopyButton>, entry: string)
    ensures var r := Tick(buttons, entry);
            && |buttons| <= |r| && r[..|buttons|] == buttons
            && HasText(r, entry)
            && (HasText(buttons, entry) <==> r == buttons)
            && (!HasText(buttons, entry) ==> |r| == |buttons| + 1 && r[|buttons|] == CopyButton(ButtonName(|buttons| + 1), entry))
  {
    var r := Tick(buttons, entry);
    if !HasText(buttons, entry) {
      assert r[|buttons|].text == entry;
    }
  }

  /** A tick keeps the panel well formed. */
  lemma TickKeepsWellFormed(buttons: seq<CopyButton>, entry: string)
    requires WellFormed(buttons)
    ensures WellFormed(Tick(buttons, entry))
  {
  }

  /** A second tick with the same clipboard text changes nothing. */
  lemma TickIdempotent(buttons: seq<CopyButton>, entry: string)
    ensures Tick(Tick(buttons, entry), entry) == Tick(buttons, entry)
  {
    TickAppendsIfAbsent(buttons, entry);
    TickAppendsIfAbsent(Tick(buttons, entry), entry);
  }

  /**
   * An empty clipboard reads as the empty text, so the first tick that sees
   * it appends a blank button (whose click throws, see MainForm.CopyButtonClick).
   */
  lemma EmptyClipboardMakesBlankButton(buttons: seq<CopyButton>)
    requires !HasText(buttons, "")
    ensures var r := Tick(buttons, "");
            |r| == |buttons| + 1 && r[|buttons|] == CopyButton(ButtonName(|buttons| + 1), "")
  {
    TickAppendsIfAbsent(buttons, "");
  }

  /** The panel after the timer has seen the clipboard texts `entries` in order, from an empty panel. */
  function History(entries: seq<string>): (r: seq<CopyButton>)
    decreases |entries|
  {
    if entries == [] then [] else Tick(History(entries[..|entries| - 1]), entries[|entries| - 1])
  }

  /** Appending to a sequence does not move the first occurrence of what was already there. */
  lemma IndexOfAppend<T>(s: seq<T>, y: T, x: T)
    ensures x in s ==> IndexOf(s + [y], x) == IndexOf(s, x)
    ensures x !in s && x == y ==> IndexOf(s + [y], x) == |s|
  {
    var t := s + [y];
    var i := IndexOf(t, x);
    if x in s {
      var j := IndexOf(s, x);
      assert t[j] == x;
      assert t[..i] == s[..i] by {
        assert i <= j;
      }
    } else if x == y {
      assert t[..|s|] == s;
    }
  }

  /** Whatever the clipboard showed, the panel stays well formed. */
  lemma {:induction false} HistoryWellFormed(entries: seq<string>)
    ensures WellFormed(History(entries))
    decreases |entries|
  {
    if entries != [] {
      var prefix := entries[..|entries| - 1];
      HistoryWellFormed(prefix);
      TickKeepsWellFormed(History(prefix), entries[|entries| - 1]);
    }
  }

  /** The panel shows exactly the clipboard texts seen so far. */
  lemma {:induction false} HistoryContents(entries: seq<string>)
    ensures var r := History(entries);
            && (forall k :: 0 <= k < |r| ==> r[k].text in entries)
            && (forall i :: 0 <= i < |entries| ==> HasText(r, entries[i]))
    decreases |entries|
  {
    if entries != [] {
      var prefix := entries[..|entries| - 1];
      var e := entries[|entries| - 1];
      assert entries == prefix + [e];
      HistoryContents(prefix);
      var h := History(prefix);
      var r := History(entries);
      TickAppendsIfAbsent(h, e);
      forall k | 0 <= k < |r| ensures r[k].text in entries {
        if k < |h| {
          assert r[k] == h[k];
        }
      }
      forall i | 0 <= i < |entries| ensures HasText(r, entries[i]) {
        if i < |prefix| {
          assert entries[i] == prefix[i];
          var k :| 0 <= k < |h| && h[k].text == prefix[i];
          assert r[k] == h[k];
        }
      }
    }
  }

  /** A tick keeps a first-seen ordering of the panel when its text joins the sequence seen. */
  lemma TickKeepsFirstSeenOrder(seen: seq<string>, h: seq<CopyButton>, e: string)
    requires forall k :: 0 <= k < |h| ==> h[k].text in seen
    requires e in seen ==> HasText(h, e)
    requires forall a, b :: 0 <= a < b < |h| ==> IndexOf(seen, h[a].text) < IndexOf(seen, h[b].text)
    ensures var r := Tick(h, e);
            forall a, b :: 0 <= a < b < |r| ==> IndexOf(seen + [e], r[a].text) < IndexOf(seen + [e], r[b].text)
  {
    var r := Tick(h, e);
    TickAppendsIfAbsent(h, e);
    forall k | 0 <= k < |h| ensures IndexOf(seen + [e], h[k].text) == IndexOf(seen, h[k].text) {
      IndexOfAppend(seen, e, h[k].text);
    }
    if r != h {
      IndexOfAppend(seen, e, e);
      forall a, b | 0 <= a < b < |r| ensures IndexOf(seen + [e], r[a].text) < IndexOf(seen + [e], r[b].text) {
        assert r[a] == h[a];
        if b < |h| {
          assert r[b] == h[b];
        }
      }
    }
  }

  /** The panel lists the texts in the order they were first seen on the clipboard. */
  lemma {:induction false} HistoryOrder(entries: seq<string>)
    ensures var r := History(entries);
            forall a, b :: 0 <= a < b < |r| ==> IndexOf(entries, r[a].text) < IndexOf(entries, r[b].text)
    decreases |entries|
  {
    if entries != [] {
      var prefix := entries[..|entries| - 1];
      var e := entries[|entries| - 1];
      assert entries == prefix + [e];
      HistoryOrder(prefix);
      HistoryContents(prefix);
      if e in prefix {
        var i :| 0 <= i < |prefix| && prefix[i] == e;
      }
      TickKeepsFirstSeenOrder(prefix, History(prefix), e);
    }
  }

  // ---------------------------------------------------------------------------
  // ToList

  /** Extensions.ToList: copies the control collection element by element, in order. */
  method ToList<T>(col: seq<T>) returns (list: seq<T>)
    ensures list == col
  {
    list := [];
    for i := 0 to |col|
      invariant list == col[..i]
    {
      list := list + [col[i]];
    }
  }

  // ---------------------------------------------------------------------------
  // The main form

  class MainForm {
    /** LayoutPanel.Controls: the history buttons, oldest first. */
    var controls: seq<CopyButton>
    var showInTaskbar: bool
    var windowState: FormWindowState
    const hotkeyManager: KeyboardHook

    ghost predicate Valid()
      reads this, hotkeyManager, hotkeyManager.os
    {
      hotkeyManager.Valid() && WellFormed(controls)
    }

    /** A fresh form: an empty panel, shown normally, with a fresh hot-key manager over `os`. */
    constructor (os: Registrar)
      requires os.Valid() && os.bound == map[]
      ensures Valid() && hotkeyManager.Live()
      ensures controls == [] && showInTaskbar && windowState == Normal
      ensures fresh(hotkeyManager) && hotkeyManager.os == os && hotkeyManager.windowAlive
      ensures hotkeyManager.currentId == 0 && hotkeyManager.pausedHotkeys == [] && hotkeyManager.gates == map[]
    {
      controls := [];
      showInTaskbar := true;
      windowState := Normal;
      hotkeyManager := new KeyboardHook(os);
    }

    /** ClipboardMonitor_Tick, with the clipboard's current text passed in as `entry`. */
    method ClipboardMonitorTick(entry: string)
      requires Valid()
      modifies this`controls
      ensures Valid()
      ensures controls == Tick(old(controls), entry)
    {
      var list := ToList(controls);
      TickKeepsWellFormed(controls, entry);
      if forall k :: 0 <= k < |list| ==> list[k].text != entry {
        var button := CopyButton(ButtonName(|controls| + 1), entry);
        controls := controls + [button];
      }
    }

    /**
     * A copy button's click handler: puts the text the button captured back
     * on the clipboard, which refuses the empty text.
     */
    method CopyButtonClick(index: nat) returns (r: ClickOutcome)
      requires index < |controls|
      ensures r.ThrewArgumentNull? <==> controls[index].text == ""
      ensures r.Copied? ==> r.text == controls[index].text && HasText(controls, r.text)
    {
      var entry := controls[index].text;
      if entry == "" {
        return ThrewArgumentNull;
      }
      r := Copied(entry);
    }

    /** The close button hides the window: off the taskbar and minimised. */
    method CloseButtonClick()
      modifies this`showInTaskbar, this`windowState
      ensures !showInTaskbar && windowState == Minimized
    {
      showInTaskbar := false;
      windowState := Minimized;
    }

    /** The tray menu's Show item brings the window back. */
    method ShowMenuItemClick()
      modifies this`showInTaskbar, this`windowState
      ensures showInTaskbar && windowState == Normal
    {
      showInTaskbar := true;
      windowState := Normal;
    }

    /** Double-clicking the tray icon brings the window back. */
    method TrayIconDoubleClick()
      modifies this`showInTaskbar, this`windowState
      ensures showInTaskbar && windowState == Normal
    {
      showInTaskbar := true;
      windowState := Normal;
    }

    /** The hot-key handler: shows the window for Win+V and ignores every other combination. */
    method HotkeyManagerOnKeyPressed(args: KeyPressedEventArgs)
      modifies this`showInTaskbar, this`windowState
      ensures IsShowHotkey(args) ==> showInTaskbar && windowState == Normal
      ensures !IsShowHotkey(args) ==> showInTaskbar == old(showInTaskbar) && windowState == old(windowState)
    {
      if args.modifier == Win && args.key == KeyV {
        showInTaskbar := true;
        windowState := Normal;
      }
    }

    /**
     * MainForm_Load: registers Win+V globally, with no owning form. The form's
     * generated initialisation never attaches this handler to the Load event.
     */
    method Load() returns (r: Outcome)
      requires Valid()
      modifies hotkeyManager, hotkeyManager.os
      ensures Valid()
      ensures r.Done? <==> CanBind(old(hotkeyManager.os.bound), old(hotkeyManager.os.claimed), Combo(Win, KeyV))
      ensures r.Thrown? ==> r.error == CouldNotRegister
      ensures hotkeyManager.currentId == old(hotkeyManager.currentId) + 1
      ensures hotkeyManager.history == old(hotkeyManager.history) + [Registration(Combo(Win, KeyV), None, r.Done?)]
      ensures hotkeyManager.os.log == old(hotkeyManager.os.log) + [BindCall(hotkeyManager.currentId, Combo(Win, KeyV))]
      ensures hotkeyManager.os.bound == if r.Done? then old(hotkeyManager.os.bound)[hotkeyManager.currentId := Combo(Win, KeyV)]
                                       else old(hotkeyManager.os.bound)
      ensures hotkeyManager.gates == old(hotkeyManager.gates)
      ensures hotkeyManager.pausedHotkeys == old(hotkeyManager.pausedHotkeys)
      ensures hotkeyManager.windowAlive == old(hotkeyManager.windowAlive)
      ensures hotkeyManager.os.claimed == old(hotkeyManager.os.claimed)
      ensures old(hotkeyManager.Live()) ==> hotkeyManager.Live()
    {
      r := hotkeyManager.RegisterHotKey(Win, KeyV, None);
    }
  }
}
