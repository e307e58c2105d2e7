/**
 The six bounded HSV parameters of the range finder. Each parameter is shown
 three ways: a slider bound to a Tk `DoubleVar` (the value itself), an entry
 box the user types into, and a label in the "Get Result" panel. The slider
 handlers (`lh_changed`, ...) copy the value into the label and the entry; the
 entry handlers (`lh_entry_changed`, ...) parse the entry text and, when the
 number is inside the channel's domain, store it in the value and the label.
 Setting the variable from an entry handler moves the slider without invoking
 the slider's command, so the entry keeps the text as typed.
 */
module Params {
  import opened Base
  import opened PyText

  datatype Channel = Hue | Saturation | Value
  datatype Side = Lower | Upper

  /** Which of the six parameters: lower/upper bound of one channel. */
  datatype Knob = Knob(side: Side, channel: Channel)

  /** The slider's `to=` limit; every slider starts at `from_=0`. */
  function Max(c: Channel): int {
    if c == Hue then 179 else 255
  }

  predicate InDomain(c: Channel, v: int) {
    0 <= v <= Max(c)
  }

  /** One parameter: the variable's value, the entry text, the label text. */
  datatype Control = Control(value: int, entry: string, shown: string)

  /** The three views agree: label and entry both print the value. */
  predicate InSync(c: Control) {
    c.shown == Str(c.value) && c.entry == Str(c.value)
  }

  datatype Controls = Controls(lh: Control, ls: Control, lv: Control,
                               uh: Control, us: Control, uv: Control)

  function Get(cs: Controls, k: Knob): Control {
    match k
    case Knob(Lower, Hue) => cs.lh
    case Knob(Lower, Saturation) => cs.ls
    case Knob(Lower, Value) => cs.lv
    case Knob(Upper, Hue) => cs.uh
    case Knob(Upper, Saturation) => cs.us
    case Knob(Upper, Value) => cs.uv
  }

  /** Replaces one parameter and leaves the other five alone. */
  function Put(cs: Controls, k: Knob, c: Control): (r: Controls)
    ensures Get(r, k) == c
    ensures forall k' :: k' != k ==> Get(r, k') == Get(cs, k')
  {
    match k
    case Knob(Lower, Hue) => cs.(lh := c)
    case Knob(Lower, Saturation) => cs.(ls := c)
    case Knob(Lower, Value) => cs.(lv := c)
    case Knob(Upper, Hue) => cs.(uh := c)
    case Knob(Upper, Saturation) => cs.(us := c)
    case Knob(Upper, Value) => cs.(uv := c)
  }

  /** State after construction: every variable starts at 0 and every label
      reads "0", but the upper entries are pre-filled with the channel maxima. */
  function Initial(): Controls {
    Controls(Control(0, "0", "0"), Control(0, "0", "0"), Control(0, "0", "0"),
             Control(0, "179", "0"), Control(0, "255", "0"), Control(0, "255", "0"))
  }

  /** What holds of every reachable state: each value lies in its channel's
      domain and each label prints its value. The entry may differ. */
  ghost predicate Consistent(cs: Controls) {
    forall k: Knob :: InDomain(k.channel, Get(cs, k).value) && Get(cs, k).shown == Str(Get(cs, k).value)
  }

  lemma InitialConsistent()
    ensures Consistent(Initial())
  {
  }

  /** At start-up the upper entries do not show the upper values. */
  lemma InitialUpperEntriesDisagree(c: Channel)
    ensures !InSync(Get(Initial(), Knob(Upper, c)))
    ensures Get(Initial(), Knob(Upper, c)).value == 0
    ensures Get(Initial(), Knob(Upper, c)).entry == Str(Max(c))
  {
    var e := Get(Initial(), Knob(Upper, c)).entry;
    assert e[0] != '0';
    assert NatStr(17) == NatStr(1) + "7";
    assert NatStr(25) == NatStr(2) + "5";
    assert Str(179) == NatStr(17) + "9" == "179";
    assert Str(255) == NatStr(25) + "5" == "255";
  }

  /** The user drags a slider to `pos`: Tk stores `pos` in the variable, then
      the slider handler writes `str(int(value))` into the label and the entry. */
  function Slide(cs: Controls, k: Knob, pos: int): (r: Controls)
    requires InDomain(k.channel, pos)
    ensures Get(r, k).value == pos && InSync(Get(r, k))
    ensures forall k' :: k' != k ==> Get(r, k') == Get(cs, k')
  {
    Put(cs, k, Control(pos, Str(pos), Str(pos)))
  }

  /** The user edits an entry box; no handler runs until Return or focus-out. */
  function Type(cs: Controls, k: Knob, text: string): (r: Controls)
    ensures Get(r, k).entry == text
    ensures Get(r, k).value == Get(cs, k).value && Get(r, k).shown == Get(cs, k).shown
    ensures forall k' :: k' != k ==> Get(r, k') == Get(cs, k')
  {
    Put(cs, k, Get(cs, k).(entry := text))
  }

  /** The entry handler, run on Return or focus-out: parse the entry text as
      an integer; inside the domain, store it in the value and the label;
      otherwise (not an integer, or out of range) change nothing. The entry
      text is never rewritten and nothing is clamped. */
  function Commit(cs: Controls, k: Knob): (r: Controls)
    ensures Get(r, k).entry == Get(cs, k).entry
    ensures forall k' :: k' != k ==> Get(r, k') == Get(cs, k')
    ensures r == cs || (ParseInt(Get(cs, k).entry) == Some(Get(r, k).value)
                        && InDomain(k.channel, Get(r, k).value)
                        && Get(r, k).shown == Str(Get(r, k).value))
    ensures (forall v :: ParseInt(Get(cs, k).entry) == Some(v) ==> !InDomain(k.channel, v)) ==> r == cs
    ensures forall v :: ParseInt(Get(cs, k).entry) == Some(v) && InDomain(k.channel, v) ==>
              Get(r, k).value == v && Get(r, k).shown == Str(v)
  {
    var c := Get(cs, k);
    match ParseInt(c.entry)
    case None => cs
    case Some(v) =>
      if 0 <= v <= Max(k.channel) then Put(cs, k, c.(value := v, shown := Str(v))) else cs
  }

  /** Typing the decimal form of `v` and confirming it sets the parameter and
      its label to `v` exactly when `v` is inside the channel's domain; any
      other number leaves value and label as they were. */
  lemma TypedNumberAccepted(cs: Controls, k: Knob, v: int)
    requires Consistent(cs)
    ensures var c := Get(Commit(Type(cs, k, Str(v)), k), k);
            (c.value == v && c.shown == Str(v)) <==> InDomain(k.channel, v)
    ensures !InDomain(k.channel, v) ==>
            var c := Get(Commit(Type(cs, k, Str(v)), k), k);
            c.value == Get(cs, k).value && c.shown == Get(cs, k).shown
  {
    ParseStr(v);
  }

  /** A rejected commit (not an integer, or outside the domain) leaves every
      value and label as it was and leaves the typed text in the entry. */
  lemma RejectedCommitChangesNothing(cs: Controls, k: Knob, text: string)
    requires ParseInt(text).None? || !InDomain(k.channel, ParseInt(text).value)
    ensures Commit(Type(cs, k, text), k) == Type(cs, k, text)
    ensures forall k' :: Get(Commit(Type(cs, k, text), k), k').value == Get(cs, k').value
    ensures forall k' :: Get(Commit(Type(cs, k, text), k), k').shown == Get(cs, k').shown
    ensures Get(Commit(Type(cs, k, text), k), k).entry == text
  {
  }

  /** The slider path and the entry path converge: sliding to `v` gives the
      same state as typing `str(v)` and confirming it. */
  lemma PathsConverge(cs: Controls, k: Knob, v: int)
    requires InDomain(k.channel, v)
    ensures Commit(Type(cs, k, Str(v)), k) == Slide(cs, k, v)
  {
    ParseStr(v);
    var l := Commit(Type(cs, k, Str(v)), k);
    var r := Slide(cs, k, v);
    forall k' ensures Get(l, k') == Get(r, k') {
    }
    ControlsExtensional(l, r);
  }

  lemma ControlsExtensional(a: Controls, b: Controls)
    requires forall k :: Get(a, k) == Get(b, k)
    ensures a == b
  {
    assert Get(a, Knob(Lower, Hue)) == Get(b, Knob(Lower, Hue));
    assert Get(a, Knob(Lower, Saturation)) == Get(b, Knob(Lower, Saturation));
    assert Get(a, Knob(Lower, Value)) == Get(b, Knob(Lower, Value));
    assert Get(a, Knob(Upper, Hue)) == Get(b, Knob(Upper, Hue));
    assert Get(a, Knob(Upper, Saturation)) == Get(b, Knob(Upper, Saturation));
    assert Get(a, Knob(Upper, Value)) == Get(b, Knob(Upper, Value));
  }

  lemma SlidePreservesConsistent(cs: Controls, k: Knob, pos: int)
    requires Consistent(cs) && InDomain(k.channel, pos)
    ensures Consistent(Slide(cs, k, pos))
  {
  }

  lemma TypePreservesConsistent(cs: Controls, k: Knob, text: string)
    requires Consistent(cs)
    ensures Consistent(Type(cs, k, text))
  {
  }

  lemma CommitPreservesConsistent(cs: Controls, k: Knob)
    requires Consistent(cs)
    ensures Consistent(Commit(cs, k))
  {
  }

  /** The getters `get_lh` ... `get_uv`: `'{:.0f}'.format(var.get())`, the
      value printed with no decimals. */
  function Reading(cs: Controls, k: Knob): (r: string)
    ensures ParseInt(r) == Some(Get(cs, k).value)
  {
    ParseStr(Get(cs, k).value);
    Str(Get(cs, k).value)
  }
}
