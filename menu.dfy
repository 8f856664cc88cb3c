/** The two-entry mode menu and the wrap-around movement of its selection. */
module Menu {

  datatype MenuOption = MenuOption(id: string, title: string)  // `label` in the source; a keyword here

  /** The fixed option table, in display order. */
  const Options: seq<MenuOption> :=
    [MenuOption("1", "Professional Mode"), MenuOption("2", "Playground Mode")]

  lemma OptionTable()
    ensures |Options| == 2
    ensures Options[0] == MenuOption("1", "Professional Mode")
    ensures Options[1] == MenuOption("2", "Playground Mode")
  {
  }

  /** The ArrowUp updater: the previous entry, wrapping from the first to the last. */
  function ArrowUp(i: int, n: int): (j: int)
    ensures 0 <= i < n ==> 0 <= j < n && j == (i + n - 1) % n
  {
    if i == 0 then n - 1 else i - 1
  }

  /** The ArrowDown updater: the next entry, wrapping from the last to the first. */
  function ArrowDown(i: int, n: int): (j: int)
    ensures 0 <= i < n ==> 0 <= j < n && j == (i + 1) % n
  {
    if i == n - 1 then 0 else i + 1
  }

  /** ArrowUp and ArrowDown undo each other on every valid index. */
  lemma ArrowsAreInverse(i: int, n: int)
    requires 0 <= i < n
    ensures ArrowDown(ArrowUp(i, n), n) == i
    ensures ArrowUp(ArrowDown(i, n), n) == i
  {
  }

  /** With the table of two entries, both arrows toggle between the two options. */
  lemma ArrowsToggle(i: int)
    requires 0 <= i < |Options|
    ensures ArrowUp(i, |Options|) == 1 - i && ArrowDown(i, |Options|) == 1 - i
  {
  }
}
