/**
 How Brewlet launches `brew`: the process and argument vector of `run_command`, the
 command chosen by the analytics toggle, and which commands are issued from which
 completion handlers.
 */
module Commands {
  import opened Wrappers
  import opened Text

  const Shell := "/bin/bash"
  const BrewPath := "/usr/local/Homebrew/bin/brew"

  /** A process to launch: its executable and its argument vector. */
  datatype Invocation = Invocation(launchPath: string, arguments: seq<string>)

  /** The process `run_command` launches: bash running the brew script with the caller's arguments. */
  function BrewInvocation(arguments: seq<string>): (r: Invocation)
    ensures r.launchPath == "/bin/bash"
    ensures |r.arguments| == |arguments| + 1
    ensures r.arguments[0] == "/usr/local/Homebrew/bin/brew"
    ensures r.arguments[1..] == arguments
  {
    Invocation(Shell, [BrewPath] + arguments)
  }

  /** The brew arguments of an invocation, when it is one `run_command` could have launched. */
  function BrewArguments(inv: Invocation): Option<seq<string>> {
    if inv.launchPath == Shell && |inv.arguments| > 0 && inv.arguments[0] == BrewPath
    then Some(inv.arguments[1..])
    else None
  }

  /** Reading the brew arguments back recovers exactly the caller's arguments, and only `BrewInvocation` produces them. */
  lemma BrewArgumentsInverse(inv: Invocation, arguments: seq<string>)
    ensures BrewArguments(BrewInvocation(arguments)) == Some(arguments)
    ensures BrewArguments(inv) == Some(arguments) ==> inv == BrewInvocation(arguments)
  {
  }

  /** `toggle_analytics`: "on" when the menu title mentions "on", otherwise "off". */
  function ToggleCommand(menuTitle: string): (c: string)
    ensures c == "on" || c == "off"
    ensures c == "on" <==> Contains(menuTitle, "on")
  {
    if Contains(menuTitle, "on") then "on" else "off"
  }

  /** A brew command and the commands its completion handler issues once it has finished. */
  datatype Command = Command(arguments: seq<string>, onCompletion: seq<Command>)

  /** Every command of the tree, each before the commands its handler issues. */
  function Issued(c: Command): seq<seq<string>>
    decreases c, 1
  {
    [c.arguments] + IssuedAll(c.onCompletion)
  }

  function IssuedAll(cs: seq<Command>): seq<seq<string>>
    decreases cs, 0
  {
    if |cs| == 0 then [] else Issued(cs[0]) + IssuedAll(cs[1..])
  }

  /** True when a command with arguments `y` is issued, directly or indirectly, by the handler of a command with arguments `x` in this tree. */
  predicate IssuedAfter(c: Command, x: seq<string>, y: seq<string>)
    decreases c, 1
  {
    (c.arguments == x && y in IssuedAll(c.onCompletion)) || IssuedAfterAny(c.onCompletion, x, y)
  }

  predicate IssuedAfterAny(cs: seq<Command>, x: seq<string>, y: seq<string>)
    decreases cs, 0
  {
    |cs| > 0 && (IssuedAfter(cs[0], x, y) || IssuedAfterAny(cs[1..], x, y))
  }

  /** `check_outdated` and `update_info`: their handlers only update the menu. */
  const CheckOutdated := Command(["outdated"], [])
  const UpdateInfo := Command(["info"], [])
  const RefreshAnalytics := Command(["analytics", "state"], [])

  /** `update_upgrade`: update, then on completion upgrade, then on completion both refreshes. */
  const UpdateUpgrade := Command(["update"], [Command(["upgrade"], [CheckOutdated, UpdateInfo])])

  /** `toggle_analytics`: switch analytics as the menu title asks, then refresh the title. */
  function ToggleAnalytics(menuTitle: string): Command {
    Command(["analytics", ToggleCommand(menuTitle)], [RefreshAnalytics])
  }

  /** A command whose handler issues nothing is issued alone and orders nothing. */
  lemma Leaf(c: Command)
    requires c.onCompletion == []
    ensures Issued(c) == [c.arguments]
    ensures forall x, y :: !IssuedAfter(c, x, y)
  {
  }

  /**
   Update-then-upgrade issues four commands, each once: "upgrade" only after "update"
   completes, and both refreshes only after "upgrade" completes, independently of each other.
   */
  lemma UpdateUpgradeOrder()
    ensures Issued(UpdateUpgrade) == [["update"], ["upgrade"], ["outdated"], ["info"]]
    ensures IssuedAfter(UpdateUpgrade, ["update"], ["upgrade"])
    ensures IssuedAfter(UpdateUpgrade, ["upgrade"], ["outdated"])
    ensures IssuedAfter(UpdateUpgrade, ["upgrade"], ["info"])
    ensures !IssuedAfter(UpdateUpgrade, ["upgrade"], ["update"])
    ensures !IssuedAfter(UpdateUpgrade, ["outdated"], ["info"])
    ensures !IssuedAfter(UpdateUpgrade, ["info"], ["outdated"])
  {
    var refreshes := [CheckOutdated, UpdateInfo];
    var upgrade := Command(["upgrade"], refreshes);
    Leaf(CheckOutdated);
    Leaf(UpdateInfo);
    assert refreshes[1..] == [UpdateInfo];
    assert [UpdateInfo][1..] == [];
    assert [upgrade][1..] == [];
    assert IssuedAll([UpdateInfo]) == [["info"]];
    assert IssuedAll(refreshes) == [["outdated"], ["info"]];
    assert IssuedAll([upgrade]) == [["upgrade"], ["outdated"], ["info"]];
    forall x, y ensures !IssuedAfterAny(refreshes, x, y) {
      assert !IssuedAfterAny([UpdateInfo], x, y);
    }
    assert IssuedAfter(upgrade, ["upgrade"], ["outdated"]);
    assert IssuedAfter(upgrade, ["upgrade"], ["info"]);
    assert ["update"] !in IssuedAll(refreshes);
    assert !IssuedAfter(upgrade, ["upgrade"], ["update"]);
    assert !IssuedAfter(upgrade, ["outdated"], ["info"]);
    assert !IssuedAfter(upgrade, ["info"], ["outdated"]);
    assert !IssuedAfterAny([upgrade][1..], ["upgrade"], ["update"]);
    assert !IssuedAfterAny([upgrade], ["upgrade"], ["update"]);
    assert !IssuedAfterAny([upgrade], ["outdated"], ["info"]);
    assert !IssuedAfterAny([upgrade], ["info"], ["outdated"]);
  }

  /** The analytics toggle switches analytics, then refreshes the analytics state. */
  lemma ToggleAnalyticsOrder(menuTitle: string)
    ensures Issued(ToggleAnalytics(menuTitle)) == [["analytics", ToggleCommand(menuTitle)], ["analytics", "state"]]
    ensures IssuedAfter(ToggleAnalytics(menuTitle), ["analytics", ToggleCommand(menuTitle)], ["analytics", "state"])
  {
  }
}
