/**
 * The arrow-key selection menu (`displaySelectionMenu`): a selected index and
 * the index that was last drawn, moved by the up and down keys with
 * wrap-around, and returned by Enter.  The terminal is replaced by the list of
 * screens the menu prints and the stream of keys it receives.
 */
module SelectionMenu {

  datatype Key = Up | Down | Return | CtrlC | OtherKey

  /** What the menu's promise settles to: the index Enter returned, the
      process exit on Ctrl-C, or nothing yet (the keys ran out). */
  datatype Outcome = Chosen(index: int) | Exited | Waiting

  /** The initial `lastRenderedSelection`, meant to differ from every selection. */
  const NeverRendered: int := -999

  /** The up key: one step back, wrapping to the last option. */
  function Above(s: int, n: int): int
  {
    if s > 0 then s - 1 else n - 1
  }

  /** The down key: one step forward, wrapping to the first option. */
  function Below(s: int, n: int): int
  {
    if s < n - 1 then s + 1 else 0
  }

  predicate IsArrow(k: Key)
  {
    k.Up? || k.Down?
  }

  /** A key that settles the menu: Enter, or Ctrl-C. */
  predicate Ends(k: Key)
  {
    k.Return? || k.CtrlC?
  }

  /** The selection after one key among `n` options. */
  function Step(n: int, s: int, k: Key): int
  {
    match k
    case Up => Above(s, n)
    case Down => Below(s, n)
    case _ => s
  }

  /** The line printed for one option: "> " marks the selected one. */
  function OptionLine(option: string, selected: bool): string
  {
    (if selected then "> " else "  ") + option
  }

  /** One render: the prompt, then every option in order. */
  function Screen(header: string, options: seq<string>, selection: int): seq<string>
  {
    [header] + seq(|options|, i requires 0 <= i < |options| => OptionLine(options[i], i == selection))
  }

  /** How the menu settles for keys pressed from selection `s` among `n` options. */
  function Navigate(n: int, s: int, keys: seq<Key>): Outcome
    decreases |keys|
  {
    if keys == [] then Waiting
    else
      match keys[0]
      case Return => Chosen(s)
      case CtrlC => Exited
      case _ => Navigate(n, Step(n, s, keys[0]), keys[1..])
  }

  /** The screens drawn while handling `keys` from selection `s` (which is also
      the last selection drawn): a redraw only when an arrow changes it. */
  function Renders(header: string, options: seq<string>, s: int, keys: seq<Key>): seq<seq<string>>
    decreases |keys|
  {
    if keys == [] || Ends(keys[0]) then []
    else
      var t := Step(|options|, s, keys[0]);
      (if t != s then [Screen(header, options, t)] else []) + Renders(header, options, t, keys[1..])
  }

  /** The selection after all of `keys`, whatever they are; a reference
      definition that knows nothing of Enter. */
  function Selection(n: int, s: int, keys: seq<Key>): int
    decreases |keys|
  {
    if keys == [] then s else Step(n, Selection(n, s, keys[..|keys| - 1]), keys[|keys| - 1])
  }

  class Menu {
    const options: seq<string>
    const header: string
    var current: int
    var lastRendered: int
    var screens: seq<seq<string>>

    /** After every render the last drawn selection is the current one. */
    ghost predicate Valid()
      reads this
    {
      lastRendered == current
    }

    constructor (options: seq<string>, header: string, defaultSelection: int)
      ensures Valid()
      ensures this.options == options && this.header == header
      ensures current == defaultSelection
      ensures screens == if defaultSelection != NeverRendered then [Screen(header, options, defaultSelection)] else []
    {
      this.options := options;
      this.header := header;
      current := defaultSelection;
      lastRendered := NeverRendered;
      screens := [];
      new;
      Render();
    }

    /** `renderMenu`: draw only when the selection differs from the last one drawn. */
    method Render()
      modifies this`lastRendered, this`screens
      ensures lastRendered == current
      ensures screens == old(screens) + if current != old(lastRendered) then [Screen(header, options, current)] else []
    {
      if current != lastRendered {
        screens := screens + [Screen(header, options, current)];
        lastRendered := current;
      }
    }

    /** The keypress listener. */
    method HandleKey(key: Key) returns (outcome: Outcome)
      requires Valid()
      modifies this`current, this`lastRendered, this`screens
      ensures Valid()
      ensures current == Step(|options|, old(current), key)
      ensures key.Return? ==> outcome == Chosen(current)
      ensures key.CtrlC? ==> outcome == Exited
      ensures !Ends(key) ==> outcome == Waiting
      ensures screens == old(screens) + if IsArrow(key) && current != old(current) then [Screen(header, options, current)] else []
    {
      outcome := Waiting;
      match key {
        case CtrlC =>
          outcome := Exited;
        case Up =>
          current := if current > 0 then current - 1 else |options| - 1;
          Render();
        case Down =>
          current := if current < |options| - 1 then current + 1 else 0;
          Render();
        case Return =>
          outcome := Chosen(current);
        case OtherKey =>
      }
    }

    /** The listener receiving `keys` until one of them settles the menu. */
    method HandleKeys(keys: seq<Key>) returns (outcome: Outcome)
      requires Valid()
      modifies this`current, this`lastRendered, this`screens
      ensures Valid()
      ensures outcome == Navigate(|options|, old(current), keys)
      ensures screens == old(screens) + Renders(header, options, old(current), keys)
    {
      ghost var s0 := current;
      ghost var drawn: seq<seq<string>> := [];
      var n := |options|;
      outcome := Waiting;
      var i := 0;
      while i < |keys| && outcome == Waiting
        invariant 0 <= i <= |keys|
        invariant Valid()
        invariant screens == old(screens) + drawn
        invariant outcome == Waiting ==> Navigate(n, s0, keys) == Navigate(n, current, keys[i..])
        invariant outcome == Waiting ==> Renders(header, options, s0, keys)
                                         == drawn + Renders(header, options, current, keys[i..])
        invariant outcome != Waiting ==> outcome == Navigate(n, s0, keys)
        invariant outcome != Waiting ==> Renders(header, options, s0, keys) == drawn
      {
        ghost var s := current;
        ghost var rest := keys[i..];
        assert rest[0] == keys[i] && rest[1..] == keys[i + 1..];
        outcome := HandleKey(keys[i]);
        if !Ends(keys[i]) {
          ghost var frame := if current != s then [Screen(header, options, current)] else [];
          RendersUnfold(header, options, s, rest);
          assert Navigate(n, s, rest) == Navigate(n, current, keys[i + 1..]);
          drawn := drawn + frame;
        } else {
          assert Navigate(n, s, rest) == outcome;
          assert Renders(header, options, s, rest) == [];
        }
        i := i + 1;
      }
      if outcome == Waiting {
        assert keys[i..] == [];
      }
    }
  }

  /** `displaySelectionMenu(options, prompt, defaultSelection)` fed with `keys`:
      the index it resolves with and everything it draws. */
  method DisplaySelectionMenu(options: seq<string>, header: string, defaultSelection: int, keys: seq<Key>)
    returns (outcome: Outcome, screens: seq<seq<string>>)
    ensures outcome == Navigate(|options|, defaultSelection, keys)
    ensures screens == (if defaultSelection != NeverRendered then [Screen(header, options, defaultSelection)] else [])
                       + Renders(header, options, defaultSelection, keys)
  {
    var menu := new Menu(options, header, defaultSelection);
    outcome := menu.HandleKeys(keys);
    screens := menu.screens;
  }

  lemma RendersUnfold(header: string, options: seq<string>, s: int, keys: seq<Key>)
    requires keys != [] && !Ends(keys[0])
    ensures var t := Step(|options|, s, keys[0]);
            Renders(header, options, s, keys)
            == (if t != s then [Screen(header, options, t)] else []) + Renders(header, options, t, keys[1..])
  {
  }

  // -----------------------------------------------------------------------
  // Properties

  /** From any selection in [-1, n) an arrow key lands in [0, n). */
  lemma ArrowLandsInRange(n: int, s: int, k: Key)
    requires n > 0 && -1 <= s < n && IsArrow(k)
    ensures 0 <= Step(n, s, k) < n
  {
  }

  /** Up then down, and down then up, come back to an in-range selection. */
  lemma UpDownRoundTrip(n: int, s: int)
    requires 0 <= s < n
    ensures Below(Above(s, n), n) == s
    ensures Above(Below(s, n), n) == s
  {
  }

  /** Enter returns the selection reached by the keys before it, unchanged. */
  lemma {:induction false} EnterReturnsSelection(n: int, s: int, keys: seq<Key>, i: nat)
    requires i < |keys| && keys[i] == Return
    requires forall j :: 0 <= j < i ==> !Ends(keys[j])
    ensures Navigate(n, s, keys) == Chosen(Selection(n, s, keys[..i]))
    decreases i
  {
    if i > 0 {
      EnterReturnsSelection(n, Step(n, s, keys[0]), keys[1..], i - 1);
      SelectionFront(n, s, keys[..i]);
      assert keys[..i][1..] == keys[1..][..i - 1];
    }
  }

  /** `Selection` unfolds from the front as well as from the back. */
  lemma {:induction false} SelectionFront(n: int, s: int, keys: seq<Key>)
    requires keys != []
    ensures Selection(n, s, keys) == Selection(n, Step(n, s, keys[0]), keys[1..])
    decreases |keys|
  {
    if |keys| > 1 {
      SelectionFront(n, s, keys[..|keys| - 1]);
      assert keys[..|keys| - 1][1..] == keys[1..][..|keys| - 2];
    }
  }

  /** Whether an arrow key comes before the first key that settles the menu. */
  predicate ArrowBeforeEnd(keys: seq<Key>)
    decreases |keys|
  {
    keys != [] && !Ends(keys[0]) && (IsArrow(keys[0]) || ArrowBeforeEnd(keys[1..]))
  }

  /** With a default in [-1, n) every returned index is in [-1, n); after an
      arrow key it is in [0, n); so -1 comes back only when the default was -1
      and Enter was pressed before any arrow key. */
  lemma {:induction false} ChosenRange(n: int, d: int, keys: seq<Key>)
    requires n > 0 && -1 <= d < n
    ensures Navigate(n, d, keys).Chosen? ==> -1 <= Navigate(n, d, keys).index < n
    ensures Navigate(n, d, keys).Chosen? && ArrowBeforeEnd(keys) ==> 0 <= Navigate(n, d, keys).index < n
    ensures Navigate(n, d, keys) == Chosen(-1) ==> d == -1 && !ArrowBeforeEnd(keys)
    decreases |keys|
  {
    if keys != [] && !Ends(keys[0]) {
      var t := Step(n, d, keys[0]);
      ChosenRange(n, t, keys[1..]);
      if IsArrow(keys[0]) {
        InRangeStays(n, t, keys[1..]);
      }
    }
  }

  /** Once the selection is in [0, n), it stays there. */
  lemma {:induction false} InRangeStays(n: int, s: int, keys: seq<Key>)
    requires 0 <= s < n
    ensures Navigate(n, s, keys).Chosen? ==> 0 <= Navigate(n, s, keys).index < n
    decreases |keys|
  {
    if keys != [] && !Ends(keys[0]) {
      InRangeStays(n, Step(n, s, keys[0]), keys[1..]);
    }
  }

  /** A caller that starts at 0 over a non-empty list never receives -1. */
  lemma StartAtZeroNeverCancels(n: int, keys: seq<Key>)
    requires n > 0
    ensures Navigate(n, 0, keys) != Chosen(-1)
  {
    ChosenRange(n, 0, keys);
  }

  /** Over an empty option list the up key does produce -1. */
  lemma EmptyListUpCancels()
    ensures Navigate(0, 0, [Up, Return]) == Chosen(-1)
  {
  }

  /** A render marks exactly the option whose index is the selection; a
      selection of -1 marks none. */
  lemma ScreenMarksSelection(header: string, options: seq<string>, selection: int, i: int)
    requires 0 <= i < |options|
    ensures |Screen(header, options, selection)| == |options| + 1
    ensures Screen(header, options, selection)[0] == header
    ensures var line := Screen(header, options, selection)[i + 1];
            |line| >= 2 && (line[..2] == "> " <==> i == selection)
  {
    var line := Screen(header, options, selection)[i + 1];
    assert line == OptionLine(options[i], i == selection);
    assert line[..2] == if i == selection then "> " else "  ";
  }
}
