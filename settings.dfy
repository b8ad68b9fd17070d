/** The settings the window manager persists, the rewriting of special
    characters in hotkey strings into the key names the keyboard listener
    understands, and the checks on what the user types. */
module Settings {
  import opened Wrappers

  // ---------------------------------------------------------------------
  // Hotkey normalisation
  // ---------------------------------------------------------------------

  /** The number of entries in the rewrite table. */
  const ReplacementCount: nat := 12

  /** The symbol of entry k of the rewrite table, in the order the replacements are applied. */
  function Symbol(k: nat): char
    requires k < ReplacementCount
  {
    match k
    case 0 => ','
    case 1 => '.'
    case 2 => '/'
    case 3 => '\\'
    case 4 => ';'
    case 5 => '\''
    case 6 => '-'
    case 7 => '='
    case 8 => '`'
    case 9 => '['
    case 10 => ']'
    case _ => ' '
  }

  /** The key name entry k puts in place of its symbol. */
  function KeyName(k: nat): string
    requires k < ReplacementCount
  {
    match k
    case 0 => "comma"
    case 1 => "period"
    case 2 => "slash"
    case 3 => "backslash"
    case 4 => "semicolon"
    case 5 => "apostrophe"
    case 6 => "minus"
    case 7 => "equal"
    case 8 => "grave"
    case 9 => "left" + " " + "bracket"
    case 10 => "right" + " " + "bracket"
    case _ => "space"
  }

  /** The twelve characters the table rewrites. */
  predicate IsSpecial(c: char) {
    c == ',' || c == '.' || c == '/' || c == '\\' || c == ';' || c == '\'' ||
    c == '-' || c == '=' || c == '`' || c == '[' || c == ']' || c == ' '
  }

  predicate HasNoSpecial(s: string) {
    forall i :: 0 <= i < |s| ==> !IsSpecial(s[i])
  }

  /** `s.replace(c, r)` for a one-character pattern: every occurrence of c becomes r. */
  function ReplaceChar(s: string, c: char, r: string): (t: string)
    ensures c !in r ==> c !in t
  {
    if s == [] then [] else (if s[0] == c then r else [s[0]]) + ReplaceChar(s[1..], c, r)
  }

  /** The `replace` call of table entry k. */
  function Rewrite(k: nat, s: string): (t: string)
    requires k < ReplacementCount
    ensures Symbol(k) !in t
  {
    ReplaceChar(s, Symbol(k), KeyName(k))
  }

  /** The successive `replace` calls of the load loop, from entry k to the end of the table. */
  function ApplyFrom(k: nat, s: string): string
    decreases ReplacementCount - k
  {
    if k >= ReplacementCount then s
    else ApplyFrom(k + 1, Rewrite(k, s))
  }

  /** The twelve `replace` calls applied to one hotkey: the per-character rewrite,
      with no special character left. */
  function Normalize(hotkey: string): (r: string)
    ensures r == NormalizedReference(hotkey)
    ensures HasNoSpecial(r)
  {
    NormalizeIsPerCharacter(hotkey);
    ReferenceHasNoSpecial(hotkey);
    ApplyFrom(0, hotkey)
  }

  /** The loop that rewrites one hotkey string, reassigning it once per table entry. */
  method NormalizeHotkey(hotkey: string) returns (r: string)
    ensures r == NormalizedReference(hotkey)
    ensures HasNoSpecial(r)
  {
    r := hotkey;
    for i := 0 to ReplacementCount
      invariant ApplyFrom(i, r) == Normalize(hotkey)
    {
      r := Rewrite(i, r);
    }
  }

  /** The reference: what the twelve replacements do to one character. The two
      bracket names contain a space, which the last entry rewrites in turn. */
  function NormChar(c: char): string {
    if c == ',' then "comma"
    else if c == '.' then "period"
    else if c == '/' then "slash"
    else if c == '\\' then "backslash"
    else if c == ';' then "semicolon"
    else if c == '\'' then "apostrophe"
    else if c == '-' then "minus"
    else if c == '=' then "equal"
    else if c == '`' then "grave"
    else if c == '[' then "left" + "space" + "bracket"
    else if c == ']' then "right" + "space" + "bracket"
    else if c == ' ' then "space"
    else [c]
  }

  /** The reference applied character by character. */
  function NormalizedReference(s: string): string {
    if s == [] then [] else NormChar(s[0]) + NormalizedReference(s[1..])
  }

  lemma {:induction false} ReplaceCharAppend(a: string, b: string, c: char, r: string)
    ensures ReplaceChar(a + b, c, r) == ReplaceChar(a, c, r) + ReplaceChar(b, c, r)
  {
    if a == [] {
      assert a + b == b;
    } else {
      assert (a + b)[0] == a[0] && (a + b)[1..] == a[1..] + b;
      ReplaceCharAppend(a[1..], b, c, r);
    }
  }

  lemma {:induction false} ReplaceCharAbsent(s: string, c: char, r: string)
    requires c !in s
    ensures ReplaceChar(s, c, r) == s
  {
    if s != [] {
      assert c !in s[1..];
      ReplaceCharAbsent(s[1..], c, r);
    }
  }

  lemma RewriteAppend(k: nat, a: string, b: string)
    requires k < ReplacementCount
    ensures Rewrite(k, a + b) == Rewrite(k, a) + Rewrite(k, b)
  {
    ReplaceCharAppend(a, b, Symbol(k), KeyName(k));
  }

  lemma {:induction false} ApplyAppend(k: nat, a: string, b: string)
    ensures ApplyFrom(k, a + b) == ApplyFrom(k, a) + ApplyFrom(k, b)
    decreases ReplacementCount - k
  {
    if k < ReplacementCount {
      var a', b' := Rewrite(k, a), Rewrite(k, b);
      RewriteAppend(k, a, b);
      ApplyAppend(k + 1, a', b');
      assert ApplyFrom(k, a + b) == ApplyFrom(k + 1, a' + b');
      assert ApplyFrom(k, a) == ApplyFrom(k + 1, a') && ApplyFrom(k, b) == ApplyFrom(k + 1, b');
    }
  }

  /** Entries k up to j whose symbol does not occur in s leave it alone. */
  lemma {:induction false} ApplySkipsAbsent(k: nat, j: nat, s: string)
    requires k <= j <= ReplacementCount
    requires forall i :: k <= i < j ==> Symbol(i) !in s
    ensures ApplyFrom(k, s) == ApplyFrom(j, s)
    decreases j - k
  {
    if k < j {
      ReplaceCharAbsent(s, Symbol(k), KeyName(k));
      ApplySkipsAbsent(k + 1, j, s);
    }
  }

  lemma SymbolsDistinct()
    ensures forall i, j :: 0 <= i < j < ReplacementCount ==> Symbol(i) != Symbol(j)
  {
  }

  lemma SymbolsSpecial()
    ensures forall i :: 0 <= i < ReplacementCount ==> IsSpecial(Symbol(i))
  {
  }

  lemma KeyNamesPlain(k: nat)
    requires k < ReplacementCount && k != 9 && k != 10
    ensures HasNoSpecial(KeyName(k))
  {
    match k
    case 0 => assert HasNoSpecial("comma");
    case 1 => assert HasNoSpecial("period");
    case 2 => assert HasNoSpecial("slash");
    case 3 => assert HasNoSpecial("backslash");
    case 4 => assert HasNoSpecial("semicolon");
    case 5 => assert HasNoSpecial("apostrophe");
    case 6 => assert HasNoSpecial("minus");
    case 7 => assert HasNoSpecial("equal");
    case 8 => assert HasNoSpecial("grave");
    case 11 => assert HasNoSpecial("space");
  }

  /** The entries from k on leave a string without special characters alone. */
  lemma ApplyKeepsPlain(k: nat, s: string)
    requires k <= ReplacementCount && HasNoSpecial(s)
    ensures ApplyFrom(k, s) == s
  {
    SymbolsSpecial();
    ApplySkipsAbsent(k, ReplacementCount, s);
  }

  /** A special character is left alone until its own entry turns it into its name. */
  lemma SpecialAt(m: nat, k: nat)
    requires m <= k < ReplacementCount
    ensures ApplyFrom(m, [Symbol(k)]) == ApplyFrom(k + 1, KeyName(k))
  {
    var c, r := Symbol(k), KeyName(k);
    forall i | m <= i < k ensures Symbol(i) !in [c] {
      SymbolsDistinct();
    }
    ApplySkipsAbsent(m, k, [c]);
    assert [c][1..] == [];
    assert ReplaceChar([c], c, r) == r + ReplaceChar([], c, r) == r;
    assert ApplyFrom(k, [c]) == ApplyFrom(k + 1, ReplaceChar([c], c, r));
  }

  /** Every symbol but the brackets becomes its key name and nothing more. */
  lemma PlainSymbol(m: nat, k: nat)
    requires m <= k < ReplacementCount && k != 9 && k != 10
    ensures ApplyFrom(m, [Symbol(k)]) == KeyName(k)
  {
    SpecialAt(m, k);
    KeyNamesPlain(k);
    ApplyKeepsPlain(k + 1, KeyName(k));
  }

  /** The last entry rewrites the space inside a two-word name. */
  lemma ReplaceSpaceInName(w1: string, w2: string)
    requires ' ' !in w1 && ' ' !in w2
    ensures ReplaceChar(w1 + " " + w2, ' ', "space") == w1 + "space" + w2
  {
    var head := w1 + " ";
    assert ReplaceChar(" ", ' ', "space") == "space" by {
      assert " "[0] == ' ' && " "[1..] == [];
    }
    ReplaceCharAppend(w1, " ", ' ', "space");
    ReplaceCharAbsent(w1, ' ', "space");
    assert ReplaceChar(head, ' ', "space") == w1 + "space";
    ReplaceCharAppend(head, w2, ' ', "space");
    ReplaceCharAbsent(w2, ' ', "space");
  }

  /** After a bracket's own entry only the space entry still changes its name. */
  lemma AfterBracketEntry(k: nat, s: string)
    requires (k == 9 || k == 10) && ']' !in s
    ensures ApplyFrom(k + 1, s) == ReplaceChar(s, ' ', "space")
  {
    ApplySkipsAbsent(k + 1, 11, s);
    assert ApplyFrom(11, s) == ApplyFrom(12, ReplaceChar(s, ' ', "space"));
  }

  /** A bracket becomes its two-word key name, such as "left bracket", and the last
      entry then spells out the space. */
  lemma Bracket(m: nat, k: nat, w1: string, w2: string)
    requires m <= k && (k == 9 || k == 10) && KeyName(k) == w1 + " " + w2
    requires HasNoSpecial(w1) && HasNoSpecial(w2)
    ensures ApplyFrom(m, [Symbol(k)]) == w1 + "space" + w2
  {
    SpecialAt(m, k);
    assert ' ' !in w1 && ' ' !in w2 && ']' !in w1 && ']' !in w2;
    assert ']' !in w1 + " " + w2;
    AfterBracketEntry(k, w1 + " " + w2);
    ReplaceSpaceInName(w1, w2);
  }

  lemma LeftBracket(m: nat)
    requires m <= 9
    ensures ApplyFrom(m, [Symbol(9)]) == "left" + "space" + "bracket"
  {
    assert HasNoSpecial("left") && HasNoSpecial("bracket");
    Bracket(m, 9, "left", "bracket");
  }

  lemma RightBracket(m: nat)
    requires m <= 10
    ensures ApplyFrom(m, [Symbol(10)]) == "right" + "space" + "bracket"
  {
    assert HasNoSpecial("right") && HasNoSpecial("bracket");
    Bracket(m, 10, "right", "bracket");
  }

  lemma NormalizeChar(c: char)
    ensures ApplyFrom(0, [c]) == NormChar(c)
  {
    var m := 0;
    if !IsSpecial(c) {
      ApplyKeepsPlain(m, [c]);
    } else if c == '[' {
      LeftBracket(m);
    } else if c == ']' {
      RightBracket(m);
    } else {
      var k := if c == ',' then 0 else if c == '.' then 1 else if c == '/' then 2
        else if c == '\\' then 3 else if c == ';' then 4 else if c == '\'' then 5
        else if c == '-' then 6 else if c == '=' then 7 else if c == '`' then 8 else 11;
      PlainSymbol(m, k);
    }
  }

  /** A hotkey ending in '[', such as "ctrl+[", ends in "leftspacebracket": the
      bracket becomes "left bracket" and the later space entry rewrites its space. */
  lemma LeftBracketBecomesLeftSpaceBracket(prefix: string)
    requires HasNoSpecial(prefix)
    ensures Normalize(prefix + "[") == prefix + "leftspacebracket"
  {
    var m := 0;
    var b := [Symbol(9)];
    assert "[" == b;
    ApplyAppend(m, prefix, b);
    ApplyKeepsPlain(m, prefix);
    LeftBracket(m);
    SpeltLeft();
  }

  /** The spelt-out name of the left bracket, as one literal. */
  lemma SpeltLeft()
    ensures "left" + "space" + "bracket" == "leftspacebracket"
  {
  }

  lemma NormCharHasNoSpecial(c: char)
    ensures HasNoSpecial(NormChar(c))
  {
    if c == '[' {
      assert HasNoSpecial("left" + "space" + "bracket");
    } else if c == ']' {
      assert HasNoSpecial("right" + "space" + "bracket");
    } else if IsSpecial(c) {
      var k := if c == ',' then 0 else if c == '.' then 1 else if c == '/' then 2
        else if c == '\\' then 3 else if c == ';' then 4 else if c == '\'' then 5
        else if c == '-' then 6 else if c == '=' then 7 else if c == '`' then 8 else 11;
      assert NormChar(c) == KeyName(k);
      KeyNamesPlain(k);
    }
  }

  /** The successive replacements amount to the per-character reference. */
  lemma {:induction false} NormalizeIsPerCharacter(s: string)
    ensures ApplyFrom(0, s) == NormalizedReference(s)
  {
    if s != [] {
      assert s == [s[0]] + s[1..];
      ApplyAppend(0, [s[0]], s[1..]);
      NormalizeChar(s[0]);
      NormalizeIsPerCharacter(s[1..]);
    }
  }

  lemma {:induction false} ReferenceHasNoSpecial(s: string)
    ensures HasNoSpecial(NormalizedReference(s))
  {
    if s != [] {
      ReferenceHasNoSpecial(s[1..]);
      var h, t := NormChar(s[0]), NormalizedReference(s[1..]);
      NormCharHasNoSpecial(s[0]);
      assert forall i :: 0 <= i < |h + t| ==> (h + t)[i] == if i < |h| then h[i] else t[i - |h|];
    }
  }

  /** A string without special characters, such as "ctrl+shift+h", passes unchanged. */
  lemma NormalizeKeepsPlain(s: string)
    requires HasNoSpecial(s)
    ensures Normalize(s) == s
  {
    ApplyKeepsPlain(0, s);
  }

  /** Normalising an already normalised hotkey changes nothing. */
  lemma NormalizeIdempotent(s: string)
    ensures Normalize(Normalize(s)) == Normalize(s)
  {
    NormalizeKeepsPlain(Normalize(s));
  }

  // ---------------------------------------------------------------------

  // ---------------------------------------------------------------------
  // What the user types
  // ---------------------------------------------------------------------

  /** Python's `str.isspace` for one character. */
  predicate IsSpace(c: char) {
    c == '\t' || c == '\n' || c == '\U{000B}' || c == '\U{000C}' || c == '\r' ||
    ('\U{001C}' <= c <= '\U{001F}') || c == ' ' || c == '\U{0085}' || c == '\U{00A0}' ||
    c == '\U{1680}' || ('\U{2000}' <= c <= '\U{200A}') || c == '\U{2028}' || c == '\U{2029}' ||
    c == '\U{202F}' || c == '\U{205F}' || c == '\U{3000}'
  }

  predicate IsBlank(s: string) {
    forall i :: 0 <= i < |s| ==> IsSpace(s[i])
  }

  function StripLeading(s: string): (t: string)
    ensures t != [] ==> !IsSpace(t[0])
  {
    if s != [] && IsSpace(s[0]) then StripLeading(s[1..]) else s
  }

  function StripTrailing(s: string): (t: string)
    ensures t != [] ==> !IsSpace(t[|t| - 1])
    ensures |t| <= |s| && t == s[..|t|]
  {
    if s != [] && IsSpace(s[|s| - 1]) then StripTrailing(s[..|s| - 1]) else s
  }

  /** Python's `str.strip()`: leading and trailing whitespace removed. */
  function Strip(s: string): (t: string)
    ensures t != [] ==> !IsSpace(t[0]) && !IsSpace(t[|t| - 1])
  {
    StripTrailing(StripLeading(s))
  }

  lemma {:induction false} StripLeadingEmpty(s: string)
    ensures StripLeading(s) == [] <==> IsBlank(s)
  {
    if s != [] {
      StripLeadingEmpty(s[1..]);
      if IsSpace(s[0]) {
        assert IsBlank(s) <==> IsBlank(s[1..]) by {
          assert forall i :: 0 < i < |s| ==> s[i] == s[1..][i - 1];
        }
      }
    }
  }

  lemma {:induction false} StripTrailingEmpty(s: string)
    ensures StripTrailing(s) == [] <==> IsBlank(s)
  {
    if s != [] {
      var n := |s| - 1;
      StripTrailingEmpty(s[..n]);
      if IsSpace(s[n]) {
        assert IsBlank(s) <==> IsBlank(s[..n]) by {
          assert forall i :: 0 <= i < n ==> s[i] == s[..n][i];
        }
      }
    }
  }

  /** `not hotkey.strip()` holds exactly for the empty and the whitespace-only strings. */
  lemma StripEmptyIffBlank(s: string)
    ensures Strip(s) == [] <==> IsBlank(s)
  {
    StripLeadingEmpty(s);
    StripTrailingEmpty(StripLeading(s));
  }

  /** `str.isdigit()`, restricted to the ASCII digits: non-empty and digits only. */
  predicate IsDigitString(s: string) {
    |s| > 0 && forall i :: 0 <= i < |s| ==> '0' <= s[i] <= '9'
  }

  /** The number a digit string denotes (what `float()` makes of it). */
  function DigitsValue(s: string): nat
    requires forall i :: 0 <= i < |s| ==> '0' <= s[i] <= '9'
  {
    if s == [] then 0 else 10 * DigitsValue(s[..|s| - 1]) + (s[|s| - 1] as int - '0' as int)
  }

  /** A custom action, as the tree and the settings file hold it: both fields are text. */
  datatype CustomAction = CustomAction(percentage: string, hotkey: string)

  /** The OK button of the custom-action dialog: the entry is accepted only when the
      percentage is a digit string and the hotkey is not blank. */
  function AcceptCustomAction(percentage: string, hotkey: string): (r: Option<CustomAction>)
    ensures r.Some? <==> IsDigitString(percentage) && !IsBlank(hotkey)
    ensures r.Some? ==> r.value.percentage == percentage && r.value.hotkey == hotkey
  {
    StripEmptyIffBlank(hotkey);
    if !IsDigitString(percentage) || Strip(hotkey) == [] then None
    else Some(CustomAction(percentage, hotkey))
  }

  /** The dialog checks only the form of the percentage: 0 and values above 100 pass. */
  lemma DialogAcceptsZeroAndOversized()
    ensures AcceptCustomAction("0", "k").Some?
    ensures AcceptCustomAction("150", "k").Some?
  {
  }

  /** A decimal percentage or a blank hotkey is refused. */
  lemma DialogRejectsDecimalOrBlank()
    ensures AcceptCustomAction("7.5", "k") == None
    ensures AcceptCustomAction("75", " \t") == None
  {
    assert "7.5"[1] == '.';
  }

  // ---------------------------------------------------------------------
  // Loading and saving
  // ---------------------------------------------------------------------

  /** The JSON object read from the settings file; an entry is None when the key is absent. */
  datatype StoredSettings = StoredSettings(
    resize80: Option<string>,
    fullscreen: Option<string>,
    center: Option<string>,
    resize60: Option<string>,
    startup: Option<bool>,
    customActions: Option<seq<CustomAction>>)

  /** What the form holds once the settings are loaded. */
  datatype Config = Config(
    resize80: string,
    fullscreen: string,
    center: string,
    resize60: string,
    startup: bool,
    customActions: seq<CustomAction>)

  /** What `json.load` yields for a missing file: the empty object. */
  const EmptyObject := StoredSettings(None, None, None, None, None, None)

  predicate IsNormalized(c: Config) {
    && HasNoSpecial(c.resize80) && HasNoSpecial(c.fullscreen)
    && HasNoSpecial(c.center) && HasNoSpecial(c.resize60)
    && forall i :: 0 <= i < |c.customActions| ==> HasNoSpecial(c.customActions[i].hotkey)
  }

  /** The hotkey of each custom action normalised, its percentage kept as written. */
  function NormalizeActions(actions: seq<CustomAction>): (r: seq<CustomAction>)
    ensures |r| == |actions|
    ensures forall i :: 0 <= i < |r| ==>
      r[i].percentage == actions[i].percentage && HasNoSpecial(r[i].hotkey)
    ensures forall i :: 0 <= i < |r| ==> r[i].hotkey == NormalizedReference(actions[i].hotkey)
  {
    if actions == [] then []
    else
      [CustomAction(actions[0].percentage, Normalize(actions[0].hotkey))] + NormalizeActions(actions[1..])
  }

  /** `_load_settings`: a missing file reads as the empty object; a missing shortcut
      as '', a missing `startup` as false, missing custom actions as none; every
      hotkey is normalised. */
  function Load(file: Option<StoredSettings>): (c: Config)
    ensures IsNormalized(c)
    ensures file == None ==> c == Config("", "", "", "", false, [])
    ensures var s := file.GetOr(EmptyObject);
      && c.resize80 == NormalizedReference(s.resize80.GetOr(""))
      && c.fullscreen == NormalizedReference(s.fullscreen.GetOr(""))
      && c.center == NormalizedReference(s.center.GetOr(""))
      && c.resize60 == NormalizedReference(s.resize60.GetOr(""))
      && c.startup == (s.startup == Some(true))
      && |c.customActions| == |s.customActions.GetOr([])|
      && forall i :: 0 <= i < |c.customActions| ==>
           c.customActions[i] == CustomAction(s.customActions.GetOr([])[i].percentage,
             NormalizedReference(s.customActions.GetOr([])[i].hotkey))
  {
    var s := file.GetOr(EmptyObject);
    var r80, fs, ce, r60 := s.resize80.GetOr(""), s.fullscreen.GetOr(""), s.center.GetOr(""), s.resize60.GetOr("");
    assert Normalize("") == "" by { NormalizeKeepsPlain(""); }
    Config(Normalize(r80), Normalize(fs), Normalize(ce), Normalize(r60),
      s.startup.GetOr(false), NormalizeActions(s.customActions.GetOr([])))
  }

  /** `save_settings`: the object written to the settings file holds every entry. */
  function Save(c: Config): (s: StoredSettings)
    ensures s.resize80 == Some(c.resize80) && s.fullscreen == Some(c.fullscreen)
    ensures s.center == Some(c.center) && s.resize60 == Some(c.resize60)
    ensures s.startup == Some(c.startup) && s.customActions == Some(c.customActions)
  {
    StoredSettings(Some(c.resize80), Some(c.fullscreen), Some(c.center), Some(c.resize60),
      Some(c.startup), Some(c.customActions))
  }

  lemma {:induction false} NormalizeActionsKeepsNormalized(actions: seq<CustomAction>)
    requires forall i :: 0 <= i < |actions| ==> HasNoSpecial(actions[i].hotkey)
    ensures NormalizeActions(actions) == actions
  {
    if actions != [] {
      var a := actions[0];
      NormalizeKeepsPlain(a.hotkey);
      NormalizeActionsKeepsNormalized(actions[1..]);
      assert NormalizeActions(actions) == [CustomAction(a.percentage, a.hotkey)] + actions[1..];
      assert actions == [a] + actions[1..];
    }
  }

  /** Saving a normalised configuration and loading it back gives it back. */
  lemma SaveLoadRoundTrip(c: Config)
    requires IsNormalized(c)
    ensures Load(Some(Save(c))) == c
  {
    NormalizeKeepsPlain(c.resize80);
    NormalizeKeepsPlain(c.fullscreen);
    NormalizeKeepsPlain(c.center);
    NormalizeKeepsPlain(c.resize60);
    NormalizeActionsKeepsNormalized(c.customActions);
  }

  /** Whatever the file held, saving what was loaded and loading again is stable. */
  lemma LoadSaveLoadStable(file: Option<StoredSettings>)
    ensures Load(Some(Save(Load(file)))) == Load(file)
  {
    SaveLoadRoundTrip(Load(file));
  }
}
