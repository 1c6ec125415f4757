/** The interactive selection menu of `find_best_match_with_prompt`
    (`curses_menu`): a highlighted row and a count of visible candidates,
    driven by the key codes `getch` returns. Rendering is not modelled; the
    keys are an abstract sequence. */
module Menu {
  import opened Ranking

  // Key codes as `getch` returns them (ncurses values and ASCII codes).
  const KeyDown: int := 258
  const KeyUp: int := 259
  const KeyEnter: int := 343
  const LineFeed: int := 10
  const CarriageReturn: int := 13
  const KeySkip: int := 115      // 's'
  const KeyManual: int := 109    // 'm'
  const KeyMissing: int := 97    // 'a'
  const KeyViewMore: int := 118  // 'v'

  const InitialShowCount: nat := 5
  const ShowStep: nat := 5

  /** `current_row` and `show_count`. */
  datatype MenuState = MenuState(row: nat, shown: nat)

  const Start: MenuState := MenuState(0, InitialShowCount)

  /** What the menu returns: a candidate, skip (None), "MANUAL_ENTRY", or
      None after appending to the missing-songs file. */
  datatype Choice = Selected(path: string) | Skip | ManualEntry | AddToMissing

  /** The effect of one key: stay in the loop with a new state, or return. */
  datatype Reaction = Stay(next: MenuState) | Leave(choice: Choice)

  /** A run over a finite key sequence: still waiting for a key in some state,
      or returned with a choice after `consumed` keys. */
  datatype MenuRun = Waiting(state: MenuState) | Decided(choice: Choice, consumed: nat)

  function Min(a: int, b: int): int { if a <= b then a else b }
  function Max(a: int, b: int): int { if a <= b then b else a }

  /** The menu invariant over a list of `count` candidates: the highlighted row
      is one of the visible rows, and the visible count is at least its
      initial 5 and above that only as far as the list is long. */
  predicate Valid(count: nat, st: MenuState) {
    count > 0 && st.row < Min(count, st.shown) &&
    InitialShowCount <= st.shown <= Max(InitialShowCount, count)
  }

  predicate IsEnter(key: int) {
    key == KeyEnter || key == LineFeed || key == CarriageReturn
  }

  /** Keys that end the menu whatever its state. */
  predicate Decisive(key: int) {
    IsEnter(key) || key == KeySkip || key == KeyManual || key == KeyMissing
  }

  /** One pass of the loop body for `key`. Exactly the decisive keys leave the
      loop; the others keep the invariant, never shrink the visible count, and
      grow it only on 'v' while candidates are hidden, by at most 5 and not
      past the list's length; the row moves by one only on up or down. Enter
      returns the highlighted candidate. Conversely, up and down do move the
      row while it has room, 'v' reveals up to 5 more rows while any are
      hidden, and every other key leaves the state as it was. */
  function React(ranked: seq<Scored>, st: MenuState, key: int): (r: Reaction)
    requires Valid(|ranked|, st)
    ensures r.Stay? <==> !Decisive(key)
    ensures r.Stay? ==> Valid(|ranked|, r.next) &&
                        st.shown <= r.next.shown <= st.shown + ShowStep
    ensures r.Stay? && r.next.shown != st.shown ==>
              key == KeyViewMore && st.shown < |ranked| && r.next.shown <= |ranked|
    ensures r.Stay? && r.next.row != st.row ==>
              (key == KeyUp && r.next.row + 1 == st.row) ||
              (key == KeyDown && r.next.row == st.row + 1)
    ensures r.Leave? ==> (r.choice.Selected? <==> IsEnter(key)) &&
                         (r.choice == Skip <==> key == KeySkip) &&
                         (r.choice == ManualEntry <==> key == KeyManual) &&
                         (r.choice == AddToMissing <==> key == KeyMissing)
    ensures r.Leave? && r.choice.Selected? ==> r.choice.path == ranked[st.row].0
    ensures key == KeyUp && st.row > 0 ==> r == Stay(st.(row := st.row - 1))
    ensures key == KeyDown && st.row < Min(|ranked|, st.shown) - 1 ==> r == Stay(st.(row := st.row + 1))
    ensures key == KeyViewMore && st.shown < |ranked| ==>
              r == Stay(st.(shown := Min(st.shown + ShowStep, |ranked|)))
    ensures !Decisive(key) && key != KeyUp && key != KeyDown && key != KeyViewMore ==> r == Stay(st)
  {
    if key == KeyUp && st.row > 0 then Stay(st.(row := st.row - 1))
    else if key == KeyDown && st.row < Min(|ranked|, st.shown) - 1 then Stay(st.(row := st.row + 1))
    else if IsEnter(key) then Leave(Selected(ranked[st.row].0))
    else if key == KeySkip then Leave(Skip)
    else if key == KeyManual then Leave(ManualEntry)
    else if key == KeyMissing then Leave(AddToMissing)
    else if key == KeyViewMore && st.shown < |ranked| then
      Stay(st.(shown := Min(st.shown + ShowStep, |ranked|)))
    else Stay(st)
  }

  function Shift(run: MenuRun, k: nat): MenuRun {
    match run
    case Waiting(st) => Waiting(st)
    case Decided(c, n) => Decided(c, n + k)
  }

  /** The loop of `curses_menu` from state `st` over `keys`. */
  function RunMenu(ranked: seq<Scored>, st: MenuState, keys: seq<int>): MenuRun
    requires Valid(|ranked|, st)
    decreases |keys|
  {
    if keys == [] then Waiting(st)
    else match React(ranked, st, keys[0])
      case Leave(c) => Decided(c, 1)
      case Stay(next) => Shift(RunMenu(ranked, next, keys[1..]), 1)
  }

  /** The menu returns at the first decisive key and not before; its choice is
      determined by that key; a selected path is one of the candidates. Without
      a decisive key it is still waiting, in a state that keeps the invariant,
      with no fewer rows visible than at the start. */
  lemma {:induction false} RunMenuOutcome(ranked: seq<Scored>, st: MenuState, keys: seq<int>)
    requires Valid(|ranked|, st)
    ensures var run := RunMenu(ranked, st, keys);
            (run.Waiting? <==> forall k :: 0 <= k < |keys| ==> !Decisive(keys[k])) &&
            (run.Waiting? ==> Valid(|ranked|, run.state) && run.state.shown >= st.shown)
    ensures var run := RunMenu(ranked, st, keys);
            run.Decided? ==>
              1 <= run.consumed <= |keys| && Decisive(keys[run.consumed - 1]) &&
              (forall k :: 0 <= k < run.consumed - 1 ==> !Decisive(keys[k])) &&
              (run.choice.Selected? <==> IsEnter(keys[run.consumed - 1])) &&
              (run.choice == Skip <==> keys[run.consumed - 1] == KeySkip) &&
              (run.choice == ManualEntry <==> keys[run.consumed - 1] == KeyManual) &&
              (run.choice == AddToMissing <==> keys[run.consumed - 1] == KeyMissing) &&
              (run.choice.Selected? ==> run.choice.path in Paths(ranked))
    decreases |keys|
  {
    if keys != [] {
      var r := React(ranked, st, keys[0]);
      if r.Leave? {
        if r.choice.Selected? {
          assert Paths(ranked)[st.row] == ranked[st.row].0;
        }
      } else {
        RunMenuOutcome(ranked, r.next, keys[1..]);
        assert forall k :: 1 <= k < |keys| ==> keys[k] == keys[1..][k - 1];
      }
    }
  }

  /** `curses_menu`: starts on row 0 with 5 rows visible and handles keys until
      one of them returns. */
  method CursesMenu(ranked: seq<Scored>, keys: seq<int>) returns (run: MenuRun)
    requires |ranked| > 0
    ensures run == RunMenu(ranked, Start, keys)
  {
    var currentRow: nat, showCount: nat := 0, InitialShowCount;
    var maxShowCount := |ranked|;
    var i := 0;
    while i < |keys|
      invariant 0 <= i <= |keys|
      invariant Valid(|ranked|, MenuState(currentRow, showCount))
      invariant Shift(RunMenu(ranked, MenuState(currentRow, showCount), keys[i..]), i) ==
                RunMenu(ranked, Start, keys)
    {
      var key := keys[i];
      assert keys[i..] == [key] + keys[i + 1..];
      i := i + 1;
      if key == KeyUp && currentRow > 0 {
        currentRow := currentRow - 1;
      } else if key == KeyDown && currentRow < Min(|ranked|, showCount) - 1 {
        currentRow := currentRow + 1;
      } else if IsEnter(key) {
        return Decided(Selected(ranked[currentRow].0), i);
      } else if key == KeySkip {
        return Decided(Skip, i);
      } else if key == KeyManual {
        return Decided(ManualEntry, i);
      } else if key == KeyMissing {
        return Decided(AddToMissing, i);
      } else if key == KeyViewMore && showCount < maxShowCount {
        showCount := Min(showCount + ShowStep, maxShowCount);
      }
    }
    return Waiting(MenuState(currentRow, showCount));
  }
}
