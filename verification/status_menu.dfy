/**
 The status lines of Brewlet's menu: the outdated-package count and icon chosen from the
 output of `brew outdated`, and the analytics toggle title chosen from
 `brew analytics state`.
 */
module StatusMenu {
  import opened Wrappers
  import opened Text
  import Commands

  const ColorIcon := "BrewletIcon-Color"
  const BlackIcon := "BrewletIcon-Black"
  const UpToDateTitle := "Packages are up-to-date"
  const OutdatedSuffix := " Outdated Packages"
  const CheckingTitle := "Checking..."
  const AnalyticsOnTitle := "Toggle analytics on"
  const AnalyticsOffTitle := "Toggle analytics off"

  /** The number of outdated packages: the non-empty lines of the output. */
  function OutdatedCount(output: string): (n: nat)
    ensures n == 0 <==> Blank(output)
  {
    SplitEmptyIffBlank(output);
    |Split(output)|
  }

  /** One outdated package per listed line, whatever the line says. */
  lemma CountOfListing(lines: seq<string>)
    requires forall k :: 0 <= k < |lines| ==> IsLine(lines[k])
    ensures OutdatedCount(Join(lines)) == |lines|
    ensures OutdatedCount(Join(lines) + "\n") == |lines|
  {
    SplitJoin(lines);
    SplitTrailingNewline(Join(lines));
  }

  /** A Windows line ending inside a line does not start a new one. */
  lemma CrLfCountsOnce()
    ensures OutdatedCount("a\r\nb") == 1
  {
  }

  /** The title and icon of the status item. */
  datatype Status = Status(title: string, icon: string)

  function OutdatedTitle(n: nat): string {
    if n > 0 then NatToString(n) + OutdatedSuffix else UpToDateTitle
  }

  /** The title and icon `check_outdated` shows for `n` outdated packages. */
  function OutdatedStatus(n: nat): (s: Status)
    ensures s.icon == ColorIcon <==> n > 0
    ensures s.icon == BlackIcon <==> n == 0
  {
    Status(OutdatedTitle(n), if n > 0 then ColorIcon else BlackIcon)
  }

  /** Reads a count back from a status title, the inverse of `OutdatedTitle`. */
  function CountInTitle(title: string): Option<nat> {
    if title == UpToDateTitle then Some(0)
    else if |title| > |OutdatedSuffix| && title[|title| - |OutdatedSuffix|..] == OutdatedSuffix
         && (forall i :: 0 <= i < |title| - |OutdatedSuffix| ==> IsDigit(title[i]))
         && title[0] != '0'
    then Some(ParseNat(title[..|title| - |OutdatedSuffix|]))
    else None
  }

  /**
   The title is "Packages are up-to-date" exactly for no outdated package, otherwise the
   count in decimal without a leading zero, and the count can be read back from it.
   */
  lemma {:induction false} TitleStatesCount(n: nat)
    ensures OutdatedStatus(n).title == UpToDateTitle <==> n == 0
    ensures n > 0 ==> OutdatedStatus(n).title[0] != '0'
    ensures CountInTitle(OutdatedStatus(n).title) == Some(n)
  {
    var title := OutdatedTitle(n);
    if n > 0 {
      var digits := NatToString(n);
      assert title[..|title| - |OutdatedSuffix|] == digits;
      assert title[|title| - |OutdatedSuffix|..] == OutdatedSuffix;
      assert title != UpToDateTitle by {
        assert IsDigit(title[0]);
        assert !IsDigit(UpToDateTitle[0]);
      }
      ParseNatToString(n);
    }
  }

  /** The status shown once `brew outdated` has printed `output`. */
  function StatusForOutput(output: string): Status {
    OutdatedStatus(OutdatedCount(output))
  }

  /** The black icon and the up-to-date title appear exactly when the output has no non-empty line. */
  lemma UpToDateIffBlank(output: string)
    ensures StatusForOutput(output).icon == BlackIcon <==> Blank(output)
    ensures StatusForOutput(output).title == UpToDateTitle <==> Blank(output)
  {
    var n := OutdatedCount(output);
    TitleStatesCount(n);
  }

  /** `update_analytics`: offer to switch analytics on when brew reports them disabled. */
  function AnalyticsTitle(stateOutput: string): (t: string)
    ensures t == AnalyticsOnTitle || t == AnalyticsOffTitle
    ensures t == AnalyticsOnTitle <==> Contains(Lower(stateOutput), "disabled")
  {
    if Contains(Lower(stateOutput), "disabled") then AnalyticsOnTitle else AnalyticsOffTitle
  }

  /** The "off" title does not contain "on" anywhere. */
  lemma OffTitleLacksOn()
    ensures !Contains(AnalyticsOffTitle, "on")
  {
    var t := AnalyticsOffTitle;
    forall i | 0 <= i <= |t|
      ensures !OccursAt(t, "on", i)
    {
      if i + 2 <= |t| {
        assert t[i..i + 2][0] == t[i] && t[i..i + 2][1] == t[i + 1];
      }
    }
  }

  /**
   Toggling from the title the state refresh chose switches analytics on exactly when
   brew reported them disabled (in any letter case), and off otherwise.
   */
  lemma ToggleFollowsState(stateOutput: string)
    ensures Commands.ToggleCommand(AnalyticsTitle(stateOutput)) ==
              (if Contains(Lower(stateOutput), "disabled") then "on" else "off")
  {
    if Contains(Lower(stateOutput), "disabled") {
      assert OccursAt(AnalyticsOnTitle, "on", 17);
    } else {
      OffTitleLacksOn();
    }
  }

  /** Menu item titles by tag. */
  type Menu = map<int, string>

  /** `name2tag["outdated"]`: the tag of the item that shows the outdated count. */
  const OutdatedTag := 1

  /** True when only the outdated item may differ between the two menus. */
  predicate OnlyOutdatedItemChanged(before: Menu, after: Menu) {
    && after.Keys == before.Keys
    && forall t :: t in before && t != OutdatedTag ==> after[t] == before[t]
  }

  /** The placeholder shown while the check runs, on the item tagged 0, as `check_outdated` does. */
  function BeginCheckAsWritten(menu: Menu): (r: Menu)
    requires 0 in menu
    ensures r.Keys == menu.Keys
    ensures r[0] == CheckingTitle
    ensures forall t :: t in menu && t != 0 ==> r[t] == menu[t]
  {
    menu[0 := CheckingTitle]
  }

  /** The placeholder shown while the check runs, on the outdated item. */
  function BeginCheck(menu: Menu): (r: Menu)
    requires OutdatedTag in menu
    ensures OnlyOutdatedItemChanged(menu, r)
    ensures r[OutdatedTag] == CheckingTitle
  {
    menu[OutdatedTag := CheckingTitle]
  }

  /** The completion handler of `check_outdated`: the outdated item shows the new status. */
  function FinishCheck(menu: Menu, output: string): (r: Menu)
    requires OutdatedTag in menu
    ensures OnlyOutdatedItemChanged(menu, r)
    ensures r[OutdatedTag] == OutdatedStatus(OutdatedCount(output)).title
  {
    menu[OutdatedTag := StatusForOutput(output).title]
  }

  /**
   As written, the "Checking..." placeholder goes to the item tagged 0 while the result
   goes to the item tagged 1, so the tag-0 item keeps "Checking..." after the check.
   */
  lemma AsWrittenLeavesPlaceholder()
    ensures var before := map[0 := "Preferences...", 1 := UpToDateTitle];
      var after := FinishCheck(BeginCheckAsWritten(before), "");
      after[0] == CheckingTitle && !OnlyOutdatedItemChanged(before, after)
  {
    var before := map[0 := "Preferences...", 1 := UpToDateTitle];
    var after := FinishCheck(BeginCheckAsWritten(before), "");
    assert after[0] == CheckingTitle;
    assert CheckingTitle != "Preferences..." by { assert CheckingTitle[0] != "Preferences..."[0]; }
  }

  /**
   With the placeholder on the outdated item, a completed check changes that item alone,
   and leaves the menu exactly as if no placeholder had been shown.
   */
  lemma CheckChangesOnlyOutdatedItem(menu: Menu, output: string)
    requires OutdatedTag in menu
    ensures OnlyOutdatedItemChanged(menu, FinishCheck(BeginCheck(menu), output))
    ensures FinishCheck(BeginCheck(menu), output) == FinishCheck(menu, output)
    ensures FinishCheck(BeginCheck(menu), output)[OutdatedTag] == StatusForOutput(output).title
  {
  }
}
