/** The registry of global hotkeys: the map from hotkey string to callback that
    the window manager keeps next to the keyboard listener, and its full rebuild
    from the settings form.

    Whether the listener accepts a hotkey (`add_hotkey` raising ValueError) and
    whether it can remove one (`remove_hotkey` raising KeyError) are not computed
    here: a single call takes them as a flag, a rebuild as the set of hotkey
    strings the listener rejects and the set it cannot remove. */
module Hotkeys {
  import opened Wrappers
  import opened Actions
  import opened Settings

  /** The two fixed hotkeys of the minimize sequence. */
  const StartSequenceHotkey: string := "ctrl+shift+h"
  const CompleteSequenceHotkey: string := "ctrl+shift+m"

  /** One registration request: a hotkey string and the callback it should run. */
  datatype Binding = Binding(hotkey: string, action: Action)

  /** What one registration attempt did. */
  datatype Registration = SkippedBlank | Rejected | Registered

  /** A hotkey the registry takes: not blank, and the listener does not reject it. */
  predicate Accepted(hotkey: string, rejected: set<string>) {
    !IsBlank(hotkey) && hotkey !in rejected
  }

  /** Every percentage of the custom actions is a digit string, so `float()` of it succeeds. */
  predicate PercentagesAreDigits(actions: seq<CustomAction>) {
    forall i :: 0 <= i < |actions| ==> IsDigitString(actions[i].percentage)
  }

  /** The four predefined shortcuts, in the order of the `actions` dict. */
  function PredefinedBindings(c: Config): (bs: seq<Binding>)
    ensures |bs| == 4
  {
    [Binding(c.resize80, ResizeTo80), Binding(c.fullscreen, Fullscreen),
     Binding(c.center, CenterWindow), Binding(c.resize60, ResizeTo60)]
  }

  /** One resize binding per custom action, in tree order. */
  function CustomBindings(actions: seq<CustomAction>): (bs: seq<Binding>)
    requires PercentagesAreDigits(actions)
    ensures |bs| == |actions|
    ensures forall i :: 0 <= i < |bs| ==> bs[i].hotkey == actions[i].hotkey && bs[i].action.CustomResize?
    ensures forall i :: 0 <= i < |bs| ==> bs[i].action == CustomResize(DigitsValue(actions[i].percentage))
  {
    seq(|actions|, i requires 0 <= i < |actions| =>
      Binding(actions[i].hotkey, CustomResize(DigitsValue(actions[i].percentage))))
  }

  /** The two minimize-sequence hotkeys, registered last. */
  function SequenceBindings(): seq<Binding> {
    [Binding(StartSequenceHotkey, StartMinimizeSequence), Binding(CompleteSequenceHotkey, CompleteMinimizeSequence)]
  }

  /** Everything a rebuild registers, in order. */
  function Bindings(c: Config): (bs: seq<Binding>)
    requires PercentagesAreDigits(c.customActions)
    ensures |bs| == |c.customActions| + 6
  {
    PredefinedBindings(c) + CustomBindings(c.customActions) + SequenceBindings()
  }

  /** The effect of one registration on the map. */
  function Bind(m: map<string, Action>, b: Binding, rejected: set<string>): (r: map<string, Action>)
    ensures forall k :: k != b.hotkey ==> (k in r <==> k in m) && (k in r ==> r[k] == m[k])
    ensures m.Keys <= r.Keys
  {
    if Strip(b.hotkey) == [] || b.hotkey in rejected then m else m[b.hotkey := b.action]
  }

  /** Registrations applied one after the other, front to back. */
  function BindAll(m: map<string, Action>, bs: seq<Binding>, rejected: set<string>): (r: map<string, Action>)
    ensures m.Keys <= r.Keys
    ensures forall k :: k in r && k !in m ==> exists i :: 0 <= i < |bs| && bs[i].hotkey == k
    decreases |bs|
  {
    if bs == [] then m else BindAll(Bind(m, bs[0], rejected), bs[1..], rejected)
  }

  /** What survives unregistering everything: the entries whose removal raised. */
  function Retained(m: map<string, Action>, stuck: set<string>): (r: map<string, Action>)
    ensures r.Keys <= m.Keys && r.Keys <= stuck
    ensures forall k :: k in m && k in stuck ==> k in r && r[k] == m[k]
  {
    map k | k in m && k in stuck :: m[k]
  }

  /** The reference: what a hotkey is bound to after a sequence of registrations is
      the action of the LAST accepted binding for it, or its old entry if none. */
  function LastAccepted(m: map<string, Action>, bs: seq<Binding>, rejected: set<string>, k: string): Option<Action>
    decreases |bs|
  {
    if bs == [] then (if k in m then Some(m[k]) else None)
    else
      var b := bs[|bs| - 1];
      if b.hotkey == k && Accepted(k, rejected) then Some(b.action)
      else LastAccepted(m, bs[..|bs| - 1], rejected, k)
  }

  /** The blank test of `_register_hotkey` is `Accepted`'s blank test. */
  lemma BindAccepts(m: map<string, Action>, b: Binding, rejected: set<string>)
    ensures Bind(m, b, rejected) == if Accepted(b.hotkey, rejected) then m[b.hotkey := b.action] else m
  {
    StripEmptyIffBlank(b.hotkey);
  }

  lemma {:induction false} BindAllAppend(m: map<string, Action>, a: seq<Binding>, b: seq<Binding>, rejected: set<string>)
    ensures BindAll(m, a + b, rejected) == BindAll(BindAll(m, a, rejected), b, rejected)
    decreases |a|
  {
    if a == [] {
      assert a + b == b;
    } else {
      assert (a + b)[0] == a[0] && (a + b)[1..] == a[1..] + b;
      BindAllAppend(Bind(m, a[0], rejected), a[1..], b, rejected);
    }
  }

  /** Registering one more binding after a sequence is one more `Bind`. */
  lemma BindAllSnoc(m: map<string, Action>, bs: seq<Binding>, b: Binding, rejected: set<string>)
    ensures BindAll(m, bs + [b], rejected) == Bind(BindAll(m, bs, rejected), b, rejected)
  {
    BindAllAppend(m, bs, [b], rejected);
    assert [b][1..] == [];
  }

  /** Registering front to back agrees with the last-accepted-binding reference: a
      later duplicate overwrites an earlier one, a blank or rejected hotkey changes nothing. */
  lemma {:induction false} BindAllMatchesReference(m: map<string, Action>, bs: seq<Binding>, rejected: set<string>, k: string)
    ensures k in BindAll(m, bs, rejected) <==> LastAccepted(m, bs, rejected, k).Some?
    ensures k in BindAll(m, bs, rejected) ==> BindAll(m, bs, rejected)[k] == LastAccepted(m, bs, rejected, k).value
    decreases |bs|
  {
    if bs != [] {
      var n := |bs| - 1;
      assert bs == bs[..n] + [bs[n]];
      BindAllSnoc(m, bs[..n], bs[n], rejected);
      BindAccepts(BindAll(m, bs[..n], rejected), bs[n], rejected);
      BindAllMatchesReference(m, bs[..n], rejected, k);
    }
  }

  /** A hotkey is bound after the registrations exactly when it was bound before or
      some accepted binding names it. */
  lemma {:induction false} LastAcceptedSomeIff(m: map<string, Action>, bs: seq<Binding>, rejected: set<string>, k: string)
    ensures LastAccepted(m, bs, rejected, k).Some? <==>
      k in m || (Accepted(k, rejected) && exists i :: 0 <= i < |bs| && bs[i].hotkey == k)
    decreases |bs|
  {
    if bs != [] {
      var n := |bs| - 1;
      LastAcceptedSomeIff(m, bs[..n], rejected, k);
      if Accepted(k, rejected) && (exists i :: 0 <= i < |bs| && bs[i].hotkey == k) && bs[n].hotkey != k {
        var i :| 0 <= i < |bs| && bs[i].hotkey == k;
        assert bs[..n][i] == bs[i];
      }
      if exists i :: 0 <= i < n && bs[..n][i].hotkey == k {
        var i :| 0 <= i < n && bs[..n][i].hotkey == k;
        assert bs[i] == bs[..n][i];
      }
    }
  }

  /** After a rebuild with nothing stuck, the registered hotkeys are exactly the
      accepted ones among the predefined, custom and sequence hotkeys. */
  lemma RebuildKeys(m: map<string, Action>, c: Config, rejected: set<string>, k: string)
    requires PercentagesAreDigits(c.customActions)
    ensures k in BindAll(Retained(m, {}), Bindings(c), rejected) <==>
      Accepted(k, rejected) && exists i :: 0 <= i < |Bindings(c)| && Bindings(c)[i].hotkey == k
  {
    assert Retained(m, {}) == map[];
    BindAllMatchesReference(map[], Bindings(c), rejected, k);
    LastAcceptedSomeIff(map[], Bindings(c), rejected, k);
  }

  /** When every old entry can be removed, the rebuilt map depends on the form alone. */
  lemma RebuildForgetsHistory(m1: map<string, Action>, m2: map<string, Action>, c: Config, rejected: set<string>)
    requires PercentagesAreDigits(c.customActions)
    ensures BindAll(Retained(m1, {}), Bindings(c), rejected) == BindAll(Retained(m2, {}), Bindings(c), rejected)
  {
  }

  /** The minimize-sequence hotkeys come last, so unless the listener rejects them
      they are bound to the sequence whatever the form says. */
  lemma SequenceHotkeysBound(m: map<string, Action>, c: Config, rejected: set<string>)
    requires PercentagesAreDigits(c.customActions)
    requires StartSequenceHotkey !in rejected && CompleteSequenceHotkey !in rejected
    ensures var r := BindAll(m, Bindings(c), rejected);
      && StartSequenceHotkey in r && r[StartSequenceHotkey] == StartMinimizeSequence
      && CompleteSequenceHotkey in r && r[CompleteSequenceHotkey] == CompleteMinimizeSequence
  {
    var bs := Bindings(c);
    var n := |bs|;
    assert bs[n - 1] == Binding(CompleteSequenceHotkey, CompleteMinimizeSequence);
    assert bs[n - 2] == Binding(StartSequenceHotkey, StartMinimizeSequence);
    assert bs[..n - 1][n - 2] == bs[n - 2];
    assert !IsSpace(StartSequenceHotkey[0]) && !IsSpace(CompleteSequenceHotkey[0]);
    assert StartSequenceHotkey[11] != CompleteSequenceHotkey[11];
    BindAllMatchesReference(m, bs, rejected, StartSequenceHotkey);
    BindAllMatchesReference(m, bs, rejected, CompleteSequenceHotkey);
  }

  /** The `self.hotkeys` dict of the application. */
  class HotkeyRegistry {
    var hotkeys: map<string, Action>

    constructor()
      ensures hotkeys == map[]
    {
      hotkeys := map[];
    }

    /** `_register_hotkey`: a blank hotkey is skipped, one the listener rejects
        (`accepted` false) leaves the map alone, any other is stored, replacing
        an earlier callback for the same string. */
    method Register(hotkey: string, action: Action, accepted: bool) returns (outcome: Registration)
      modifies this
      ensures outcome == if IsBlank(hotkey) then SkippedBlank else if !accepted then Rejected else Registered
      ensures hotkeys == if outcome == Registered then old(hotkeys)[hotkey := action] else old(hotkeys)
    {
      StripEmptyIffBlank(hotkey);
      if Strip(hotkey) == [] {
        return SkippedBlank;
      }
      if !accepted {
        return Rejected;
      }
      hotkeys := hotkeys[hotkey := action];
      outcome := Registered;
    }

    /** `_register_custom_hotkey`: registers the resize closure for a digit-string percentage. */
    method RegisterCustom(percentage: string, hotkey: string, accepted: bool) returns (outcome: Registration)
      requires IsDigitString(percentage)
      modifies this
      ensures outcome == if IsBlank(hotkey) then SkippedBlank else if !accepted then Rejected else Registered
      ensures hotkeys == if outcome == Registered then old(hotkeys)[hotkey := CustomResize(DigitsValue(percentage))] else old(hotkeys)
    {
      outcome := Register(hotkey, CustomResize(DigitsValue(percentage)), accepted);
    }

    /** `_unregister_hotkey`: the entry goes unless the listener's removal raised
        (`removed` false); an unknown hotkey leaves the map unchanged either way. */
    method Unregister(hotkey: string, removed: bool)
      modifies this
      ensures hotkeys == if removed then old(hotkeys) - {hotkey} else old(hotkeys)
      ensures hotkey !in old(hotkeys) ==> hotkeys == old(hotkeys)
    {
      if removed {
        hotkeys := hotkeys - {hotkey};
      }
    }

    /** `_unregister_all_hotkeys`: every key of a snapshot of the map is unregistered;
        only the entries whose removal raised survive. */
    method UnregisterAll(stuck: set<string>)
      modifies this
      ensures hotkeys == Retained(old(hotkeys), stuck)
      ensures stuck == {} ==> hotkeys == map[]
    {
      var keys := hotkeys.Keys;
      while keys != {}
        invariant keys <= old(hotkeys).Keys
        invariant hotkeys == map k | k in old(hotkeys) && (k in keys || k in stuck) :: old(hotkeys)[k]
        decreases keys
      {
        var k :| k in keys;
        Unregister(k, k !in stuck);
        keys := keys - {k};
      }
    }

    /** `_register_hotkeys`: unregister everything, then register the four predefined
        shortcuts, the custom actions in tree order and the two sequence hotkeys. */
    method RegisterAll(c: Config, rejected: set<string>, stuck: set<string>)
      requires PercentagesAreDigits(c.customActions)
      modifies this
      ensures hotkeys == BindAll(Retained(old(hotkeys), stuck), Bindings(c), rejected)
    {
      UnregisterAll(stuck);
      ghost var start := hotkeys;
      var outcome: Registration;

      var predefined := PredefinedBindings(c);
      for i := 0 to 4
        invariant hotkeys == BindAll(start, predefined[..i], rejected)
      {
        outcome := Register(predefined[i].hotkey, predefined[i].action, predefined[i].hotkey !in rejected);
        Step(start, predefined, i, rejected);
      }
      assert predefined[..4] == predefined;

      var customs := CustomBindings(c.customActions);
      assert predefined + customs[..0] == predefined;
      for i := 0 to |c.customActions|
        invariant hotkeys == BindAll(start, predefined + customs[..i], rejected)
      {
        var action := c.customActions[i];
        outcome := Register(action.hotkey, CustomResize(DigitsValue(action.percentage)), action.hotkey !in rejected);
        assert customs[i] == Binding(action.hotkey, CustomResize(DigitsValue(action.percentage)));
        assert (predefined + customs[..i]) + [customs[i]] == predefined + customs[..i + 1];
        BindAllSnoc(start, predefined + customs[..i], customs[i], rejected);
        BindAccepts(BindAll(start, predefined + customs[..i], rejected), customs[i], rejected);
      }
      assert customs[..|c.customActions|] == customs;

      var sequence := SequenceBindings();
      assert predefined + customs + sequence[..0] == predefined + customs;
      for i := 0 to 2
        invariant hotkeys == BindAll(start, predefined + customs + sequence[..i], rejected)
      {
        outcome := Register(sequence[i].hotkey, sequence[i].action, sequence[i].hotkey !in rejected);
        assert (predefined + customs + sequence[..i]) + [sequence[i]] == predefined + customs + sequence[..i + 1];
        BindAllSnoc(start, predefined + customs + sequence[..i], sequence[i], rejected);
        BindAccepts(BindAll(start, predefined + customs + sequence[..i], rejected), sequence[i], rejected);
      }
      assert sequence[..2] == sequence;
    }

    /** `save_settings`: the form is written out as a settings object, then every
        hotkey is registered anew. */
    method SaveSettings(c: Config, rejected: set<string>, stuck: set<string>) returns (written: StoredSettings)
      requires PercentagesAreDigits(c.customActions)
      modifies this
      ensures written == Save(c)
      ensures hotkeys == BindAll(Retained(old(hotkeys), stuck), Bindings(c), rejected)
    {
      written := Save(c);
      RegisterAll(c, rejected, stuck);
    }
  }

  /** One step of a registration loop: the map after i + 1 bindings. */
  lemma Step(start: map<string, Action>, bs: seq<Binding>, i: nat, rejected: set<string>)
    requires i < |bs|
    ensures BindAll(start, bs[..i + 1], rejected) ==
      if Accepted(bs[i].hotkey, rejected) then BindAll(start, bs[..i], rejected)[bs[i].hotkey := bs[i].action]
      else BindAll(start, bs[..i], rejected)
  {
    assert bs[..i + 1] == bs[..i] + [bs[i]];
    BindAllSnoc(start, bs[..i], bs[i], rejected);
    BindAccepts(BindAll(start, bs[..i], rejected), bs[i], rejected);
  }
}
