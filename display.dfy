/**
 * The time column `create_display_image` draws for each arrival.
 */
module Display {
  import opened Wrappers
  import opened PyText

  const Arriving: string := "In arrivo"
  const MinuteSuffix: string := " min"

  /**
   * "In arrivo" for 0 minutes, "1 min" for one, `f"{minutes} min"`
   * otherwise; the special case for one minute is the general format.
   */
  function MinutesLabel(minutes: nat): (text: string)
    ensures minutes == 0 <==> text == Arriving
    ensures minutes != 0 ==> text == ShowNat(minutes) + MinuteSuffix
  {
    if minutes == 0 then Arriving
    else if minutes == 1 then
      assert ShowNat(1) == "1";
      "1 min"
    else
      var digits := ShowNat(minutes);
      assert (digits + MinuteSuffix)[0] == digits[0];
      digits + MinuteSuffix
  }

  /** The number in a label reads back as the minutes it was drawn for. */
  lemma {:induction false} LabelGivesMinutes(minutes: nat)
    requires minutes != 0
    ensures var text := MinutesLabel(minutes);
      |text| > |MinuteSuffix| && text[|text| - |MinuteSuffix|..] == MinuteSuffix &&
      ParseNat(text[..|text| - |MinuteSuffix|]) == Some(minutes)
  {
    var digits := ShowNat(minutes);
    var text := digits + MinuteSuffix;
    assert text[..|text| - |MinuteSuffix|] == digits;
    assert text[|text| - |MinuteSuffix|..] == MinuteSuffix;
    ParseShowNat(minutes);
  }
}
