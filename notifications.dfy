/**
 * `showNotification(message, type)`: a toast whose class list is chosen by
 * the kind, appended to the document body, slid in 100 ticks later, given
 * its slide-out transform at 3000 and removed 300 after that. Each call
 * adds an independent toast with its own three timers; none can be
 * cancelled. The slide-out value main.js writes does not parse, so as
 * written the toast stays in view until it is removed.
 */
module Notifications {
  import opened Wrappers

  const BaseClasses := "fixed top-4 right-4 z-50 p-4 rounded-lg shadow-lg transform translate-x-full transition-transform duration-300 "
  const SuccessStyle := "bg-green-500 text-white"
  const ErrorStyle := "bg-red-500 text-white"
  const InfoStyle := "bg-blue-500 text-white"

  /** The three styles the kind can select. */
  datatype Tone = Green | Red | Blue

  /** The `type` parameter, whose default is `'info'`. */
  function KindOrDefault(kind: Option<string>): (k: string)
    ensures kind.None? ==> k == "info"
    ensures kind.Some? ==> k == kind.value
  {
    match kind
    case None => "info"
    case Some(k) => k
  }

  /** The ternary chain: `success` is green, `error` red, anything else blue. */
  function ToneOf(kind: string): Tone {
    if kind == "success" then Green else if kind == "error" then Red else Blue
  }

  function StyleOf(tone: Tone): string {
    match tone
    case Green => SuccessStyle
    case Red => ErrorStyle
    case Blue => InfoStyle
  }

  /** The toast's `className`: the fixed base classes, then the kind's style. */
  function ClassName(kind: string): (cls: string)
    ensures |cls| > |BaseClasses| && cls[..|BaseClasses|] == BaseClasses
    ensures kind == "success" ==> cls == BaseClasses + SuccessStyle
    ensures kind == "error" ==> cls == BaseClasses + ErrorStyle
    ensures kind != "success" && kind != "error" ==> cls == BaseClasses + InfoStyle
  {
    BaseClasses + StyleOf(ToneOf(kind))
  }

  /**
   * Two kinds give the same class list exactly when they select the same
   * tone: `success` and `error` each have their own, and every other kind,
   * the default `info` among them, shares the blue one.
   */
  lemma ClassNameDistinguishesTone(k1: string, k2: string)
    ensures ClassName(k1) == ClassName(k2) <==> ToneOf(k1) == ToneOf(k2)
  {
    var n := |BaseClasses|;
    if ClassName(k1) == ClassName(k2) {
      assert ClassName(k1)[n + 3] == ClassName(k2)[n + 3];
      assert StyleOf(ToneOf(k1))[3] == ClassName(k1)[n + 3];
      assert StyleOf(ToneOf(k2))[3] == ClassName(k2)[n + 3];
    }
  }

  /** The default kind is blue, like every kind other than `success` and `error`. */
  lemma DefaultIsInfo(kind: string)
    requires kind != "success" && kind != "error"
    ensures ClassName(KindOrDefault(None)) == ClassName(kind)
  {
  }

  // A small part of the CSS value grammar: `translateX(<length-percentage>)`
  // where the argument is an unsigned integer followed by `px` or `%`, or a
  // unitless zero.

  predicate IsDigits(s: string) {
    |s| > 0 && forall i :: 0 <= i < |s| ==> '0' <= s[i] <= '9'
  }

  predicate IsZero(s: string) {
    |s| > 0 && forall i :: 0 <= i < |s| ==> s[i] == '0'
  }

  predicate IsLengthPercentage(a: string) {
    IsZero(a) ||
    (|a| >= 3 && a[|a| - 2..] == "px" && IsDigits(a[..|a| - 2])) ||
    (|a| >= 2 && a[|a| - 1] == '%' && IsDigits(a[..|a| - 1]))
  }

  const TranslatePrefix := "translateX("

  predicate IsTranslateX(v: string) {
    |v| > |TranslatePrefix| && v[..|TranslatePrefix|] == TranslatePrefix && v[|v| - 1] == ')' &&
    IsLengthPercentage(v[|TranslatePrefix|..|v| - 1])
  }

  /** `el.style.transform = value`: the CSS object model ignores a value that does not parse. */
  function AssignTransform(current: string, value: string): (r: string)
    ensures r == value || r == current
    ensures r == value <==> IsTranslateX(value) || value == current
  {
    if IsTranslateX(value) then value else current
  }

  const EnterDelay := 100
  const HoldDelay := 3000
  const ExitDuration := 300

  const EnterTransform := "translateX(0)"
  /** The value main.js assigns when the toast leaves. */
  const ExitAsWritten := "translateX(full)"
  /** The value that slides the toast back out, what `translate-x-full` means. */
  const ExitTransform := "translateX(100%)"

  lemma TransformValues()
    ensures IsTranslateX(EnterTransform)
    ensures IsTranslateX(ExitTransform)
    ensures !IsTranslateX(ExitAsWritten)
  {
    assert EnterTransform[|TranslatePrefix|..|EnterTransform| - 1] == "0";
    assert ExitTransform[|TranslatePrefix|..|ExitTransform| - 1] == "100%";
    var arg := ExitAsWritten[|TranslatePrefix|..|ExitAsWritten| - 1];
    assert arg == "full";
    assert !IsZero(arg) by { assert arg[0] == 'f'; }
    assert arg[|arg| - 2..] == "ll";
    assert arg[|arg| - 1] == 'l';
  }

  /**
   * A toast in the body: its text, class list, creation time, inline
   * `style.transform` (empty until set, the class `translate-x-full`
   * then holding it off screen) and how many of its timers have run.
   */
  datatype Toast = Toast(message: string, className: string, createdAt: int, transform: string, timersRun: nat)

  /** The toast is in view only while its inline transform is `translateX(0)`. */
  predicate OnScreen(t: Toast) {
    t.transform == EnterTransform
  }

  /** When the toast's `n`-th timer (0, 1 or 2) fires: slide in, slide out, removal. */
  function TimerDue(t: Toast, n: nat): int
    requires n < 3
  {
    if n == 0 then t.createdAt + EnterDelay
    else if n == 1 then t.createdAt + HoldDelay
    else t.createdAt + HoldDelay + ExitDuration
  }

  /**
   * Runs the toast's timers due at or before `now`, in order; `None` once
   * the removal timer has run. `exit` is the transform the slide-out assigns.
   */
  function Settle(t: Toast, now: int, exit: string): (r: Option<Toast>)
    requires t.timersRun < 3
    ensures r.None? <==> TimerDue(t, 2) <= now
    ensures r.Some? ==> r.value.timersRun < 3 && r.value.timersRun >= t.timersRun
    ensures r.Some? ==>
      r.value.message == t.message && r.value.className == t.className && r.value.createdAt == t.createdAt
    decreases 3 - t.timersRun
  {
    if TimerDue(t, t.timersRun) > now then Some(t)
    else if t.timersRun == 2 then None
    else
      var value := if t.timersRun == 0 then EnterTransform else exit;
      Settle(t.(transform := AssignTransform(t.transform, value), timersRun := t.timersRun + 1), now, exit)
  }

  /** A toast just appended. */
  function Fresh(message: string, kind: string, now: int): Toast {
    Toast(message, ClassName(kind), now, "", 0)
  }

  /**
   * The lifecycle of one toast with the corrected slide-out value: it stays
   * in the document until 3300 ticks after creation, and is in view from 100
   * until 3000 ticks.
   */
  lemma Lifecycle(message: string, kind: string, c: int, now: int)
    requires now >= c
    ensures Settle(Fresh(message, kind, c), now, ExitTransform).Some? <==> now < c + HoldDelay + ExitDuration
    ensures Settle(Fresh(message, kind, c), now, ExitTransform).Some? ==>
      var t := Settle(Fresh(message, kind, c), now, ExitTransform).value;
      t.message == message && t.className == ClassName(kind) &&
      (OnScreen(t) <==> c + EnterDelay <= now < c + HoldDelay)
  {
    TransformValues();
    StagesOf(Fresh(message, kind, c), now, ExitTransform);
  }

  /** Unfolds `Settle` from a fresh toast into its four stages. */
  lemma StagesOf(t0: Toast, now: int, exit: string)
    requires t0.timersRun == 0 && t0.transform == "" && now >= t0.createdAt
    ensures var c := t0.createdAt;
      var t1 := t0.(transform := EnterTransform, timersRun := 1);
      var t2 := t1.(transform := AssignTransform(EnterTransform, exit), timersRun := 2);
      Settle(t0, now, exit) ==
        if now < c + EnterDelay then Some(t0)
        else if now < c + HoldDelay then Some(t1)
        else if now < c + HoldDelay + ExitDuration then Some(t2)
        else None
  {
    var c := t0.createdAt;
    var t1 := t0.(transform := EnterTransform, timersRun := 1);
    var t2 := t1.(transform := AssignTransform(EnterTransform, exit), timersRun := 2);
    TransformValues();
    assert AssignTransform(t0.transform, EnterTransform) == EnterTransform;
    if now >= c + EnterDelay {
      assert Settle(t0, now, exit) == Settle(t1, now, exit);
      if now >= c + HoldDelay {
        assert Settle(t1, now, exit) == Settle(t2, now, exit);
      }
    }
  }

  /**
   * As written, the slide-out assigns a transform that does not parse, so
   * the toast stays in view for the whole exit period and disappears only
   * when it is removed.
   */
  lemma ExitAsWrittenStaysOnScreen(message: string, kind: string, c: int, now: int)
    requires c + HoldDelay <= now < c + HoldDelay + ExitDuration
    ensures Settle(Fresh(message, kind, c), now, ExitAsWritten).Some?
    ensures OnScreen(Settle(Fresh(message, kind, c), now, ExitAsWritten).value)
  {
    TransformValues();
    StagesOf(Fresh(message, kind, c), now, ExitAsWritten);
  }

  /**
   * Applies the due timers of every toast, dropping the removed ones, in
   * order; `exit` is the transform each slide-out assigns.
   */
  function SettleAll(toasts: seq<Toast>, now: int, exit: string): (r: seq<Toast>)
    requires forall i :: 0 <= i < |toasts| ==> toasts[i].timersRun < 3
    ensures |r| <= |toasts|
    ensures forall i :: 0 <= i < |r| ==> r[i].timersRun < 3
    decreases |toasts|
  {
    if |toasts| == 0 then []
    else
      var rest := SettleAll(toasts[1..], now, exit);
      match Settle(toasts[0], now, exit)
      case None => rest
      case Some(t) => [t] + rest
  }

  ghost predicate Pending(toasts: seq<Toast>) {
    forall i :: 0 <= i < |toasts| ==> toasts[i].timersRun < 3
  }

  /**
   * Toasts do not interact: settling a body is settling each part of it
   * separately, so a new toast leaves the older ones as they would be
   * without it.
   */
  lemma {:induction false} SettleAllAppend(a: seq<Toast>, b: seq<Toast>, now: int, exit: string)
    requires Pending(a) && Pending(b)
    ensures Pending(a + b)
    ensures SettleAll(a + b, now, exit) == SettleAll(a, now, exit) + SettleAll(b, now, exit)
    decreases |a|
  {
    assert Pending(a + b) by {
      forall i | 0 <= i < |a + b| ensures (a + b)[i].timersRun < 3 {
        if i < |a| { assert (a + b)[i] == a[i]; } else { assert (a + b)[i] == b[i - |a|]; }
      }
    }
    if |a| > 0 {
      assert (a + b)[1..] == a[1..] + b;
      assert Pending(a[1..]) by {
        forall i | 0 <= i < |a[1..]| ensures a[1..][i].timersRun < 3 { assert a[1..][i] == a[i + 1]; }
      }
      SettleAllAppend(a[1..], b, now, exit);
    } else {
      assert a + b == b;
    }
  }

  /**
   * In the document as written, a toast shown at `c` is still the body's
   * only toast, and still in view, at any time of its exit period; with the
   * corrected value it is already off screen then.
   */
  lemma BodyKeepsExitingToastInView(message: string, kind: string, c: int, now: int)
    requires c + HoldDelay <= now < c + HoldDelay + ExitDuration
    ensures |SettleAll([Fresh(message, kind, c)], now, ExitAsWritten)| == 1
    ensures OnScreen(SettleAll([Fresh(message, kind, c)], now, ExitAsWritten)[0])
    ensures |SettleAll([Fresh(message, kind, c)], now, ExitTransform)| == 1
    ensures !OnScreen(SettleAll([Fresh(message, kind, c)], now, ExitTransform)[0])
  {
    ExitAsWrittenStaysOnScreen(message, kind, c, now);
    Lifecycle(message, kind, c, now);
    assert [Fresh(message, kind, c)][1..] == [];
  }

  /** The notification toasts attached to `document.body`, oldest first. */
  class Body {
    var toasts: seq<Toast>

    ghost predicate Valid()
      reads this
    {
      Pending(toasts)
    }

    constructor ()
      ensures Valid() && toasts == []
    {
      toasts := [];
    }

    /** `showNotification(message, type)` at time `now`: appends one new toast and touches no other. */
    method Show(message: string, kind: Option<string>, now: int)
      requires Valid()
      modifies this
      ensures Valid()
      ensures toasts == old(toasts) + [Fresh(message, KindOrDefault(kind), now)]
    {
      toasts := toasts + [Fresh(message, KindOrDefault(kind), now)];
    }

    /**
     * The event loop reaching time `now`: every toast's due timers run,
     * the slide-out assigning the value main.js writes.
     */
    method Tick(now: int)
      requires Valid()
      modifies this
      ensures Valid()
      ensures toasts == SettleAll(old(toasts), now, ExitAsWritten)
    {
      toasts := SettleAll(toasts, now, ExitAsWritten);
    }
  }
}
