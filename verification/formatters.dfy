/** `formatDuration`: a number of seconds shown as minutes and seconds. */
module Formatters {
  import opened Wrappers
  import opened Text

  /** `Math.max(0, Math.floor(Number(seconds || 0)))`; `None` stands for a
      missing or falsy input. */
  function WholeSeconds(seconds: Option<real>): (s: nat)
    ensures seconds.None? || seconds.value < 0.0 ==> s == 0
    ensures seconds.Some? && seconds.value >= 0.0 ==> s as real <= seconds.value < s as real + 1.0
  {
    match seconds
    case None => 0
    case Some(v) => if v.Floor < 0 then 0 else v.Floor
  }

  /** `${m}m ${r}s` with `m = floor(s / 60)` and `r = s % 60`: the
      minutes and the seconds left under a minute, in decimal. */
  function FormatDuration(seconds: Option<real>): (text: string)
    ensures exists m: nat, r: nat :: r < 60 && 60 * m + r == WholeSeconds(seconds) && text == Render(m, r)
  {
    var s := WholeSeconds(seconds);
    MinutesAndSeconds(s);
    Render(s / 60, s % 60)
  }

  /** The template `${m}m ${r}s`. */
  function Render(m: nat, r: nat): string {
    NatToString(m) + "m " + NatToString(r) + "s"
  }

  /** Minutes and seconds of a whole number of seconds: the seconds part
      is below a minute and the two together give the total back. */
  lemma MinutesAndSeconds(s: nat)
    ensures 0 <= s % 60 < 60
    ensures 60 * (s / 60) + s % 60 == s
  {
  }

  /** Reads a `"<m>m <r>s"` text back into a number of seconds. */
  function ReadDuration(text: string): Option<nat> {
    match IndexOf(text, 'm')
    case None => None
    case Some(i) =>
      var rest := text[i + 1..];
      if |rest| >= 2 && rest[0] == ' ' && rest[|rest| - 1] == 's' && i > 0
         && AllDigits(text[..i]) && AllDigits(rest[1..|rest| - 1])
      then Some(60 * DigitsValue(text[..i]) + DigitsValue(rest[1..|rest| - 1]))
      else None
  }

  /** The formatted text determines the whole number of seconds it was
      made from, so distinct durations never print alike. */
  lemma FormatDurationReadsBack(seconds: Option<real>)
    ensures ReadDuration(FormatDuration(seconds)) == Some(WholeSeconds(seconds))
  {
    var s := WholeSeconds(seconds);
    FormatDurationRenders(seconds);
    RenderReadsBack(s);
  }

  lemma FormatDurationRenders(seconds: Option<real>)
    ensures FormatDuration(seconds) == Render(WholeSeconds(seconds) / 60, WholeSeconds(seconds) % 60)
  {
  }

  lemma RenderReadsBack(s: nat)
    ensures ReadDuration(Render(s / 60, s % 60)) == Some(s)
  {
    MinutesAndSeconds(s);
    ReadsBack(s / 60, s % 60);
  }

  lemma {:induction false} ReadsBack(m: nat, r: nat)
    ensures ReadDuration(Render(m, r)) == Some(60 * m + r)
  {
    var a := NatToString(m);
    var b := NatToString(r);
    var text := Render(m, r);
    assert forall k :: 0 <= k < |a| ==> text[k] == a[k];
    assert text[|a|] == 'm';
    assert IndexOf(text, 'm') == Some(|a|);
    assert text[..|a|] == a;
    var rest := text[|a| + 1..];
    assert rest == " " + b + "s";
    assert rest[1..|rest| - 1] == b;
    DecimalRoundTrip(m);
    DecimalRoundTrip(r);
  }

  /** Negative and missing inputs print as zero. */
  lemma NonPositiveIsZero(seconds: Option<real>)
    requires seconds.None? || seconds.value < 1.0
    ensures FormatDuration(seconds) == "0m 0s"
  {
  }
}
