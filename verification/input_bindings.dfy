/**
  Input bindings: for each device a table of 23 actions with two slots each, and its form in the
  settings file. SDL's scancode names and their inverse are parameters of the label functions.
 */
module InputBindings {
  import opened Wrappers

  const ACTIONS := 23
  const SLOTS := 2
  const CELLS := 46  // ACTIONS * SLOTS

  datatype MouseButtonName = NoButton | Left | Middle | Right | X1 | X2
  datatype WheelDirection = NoDirection | Up | Down
  datatype TriggerAxis = NoAxis | LeftTrigger | RightTrigger
  datatype PadButton =
    | Invalid | South | East | West | North | Back | Start | LeftStick | RightStick | LeftShoulder | RightShoulder
    | DPadUp | DPadDown | DPadLeft | DPadRight | Touchpad
    | OtherButton(code: nat)  // the buttons SDL knows and the program has no name for

  datatype Binding =
    | Unbound
    | Keyboard(key: nat)  // 0 is SDL_SCANCODE_UNKNOWN
    | MouseButton(button: MouseButtonName)
    | MouseWheel(direction: WheelDirection)
    | GamepadButton(pad: PadButton)
    | GamepadAxis(axis: TriggerAxis)

  predicate Assigned(b: Binding) {
    match b
    case Unbound => false
    case Keyboard(key) => key != 0
    case MouseButton(button) => button != NoButton
    case MouseWheel(direction) => direction != NoDirection
    case GamepadButton(pad) => pad != Invalid
    case GamepadAxis(axis) => axis != NoAxis
  }

  predicate SameBinding(a: Binding, b: Binding) {
    match (a, b)
    case (Keyboard(k), Keyboard(l)) => k == l && k != 0
    case (MouseButton(k), MouseButton(l)) => k == l && k != NoButton
    case (MouseWheel(k), MouseWheel(l)) => k == l && k != NoDirection
    case (GamepadButton(k), GamepadButton(l)) => k == l && k != Invalid
    case (GamepadAxis(k), GamepadAxis(l)) => k == l && k != NoAxis
    case _ => false
  }

  /** The comparison is equality of assigned inputs, whatever their kind. */
  lemma SameIsEqual(a: Binding, b: Binding)
    ensures SameBinding(a, b) <==> a == b && Assigned(a)
  {
  }

  lemma OnlyAssignedAreSame(b: Binding)
    ensures !Assigned(b) ==> forall x :: !SameBinding(x, b)
  {
  }

  // ---------------------------------------------------------------- tables

  /** A device's table, cell by cell: action `a`, slot `s` is cell `2 * a + s`. */
  type Cells = s: seq<Binding> | |s| == 46 witness seq(46, _ => Unbound)

  function NoBindings(): (r: Cells) {
    seq(CELLS, _ => Unbound)
  }

  /** Every other cell with the same assigned binding is cleared. */
  function Rebound(cells: Cells, at: nat, b: Binding): (r: Cells)
    requires at < CELLS
  {
    seq(CELLS, c requires 0 <= c < CELLS =>
      if c == at then b else if SameBinding(cells[c], b) then Unbound else cells[c])
  }

  /** No assigned binding is in two cells. */
  ghost predicate Unique(cells: Cells) {
    forall c, d :: 0 <= c < d < CELLS && Assigned(cells[c]) ==> cells[c] != cells[d]
  }

  lemma ReboundKeepsUnique(cells: Cells, at: nat, b: Binding)
    requires at < CELLS && Unique(cells)
    ensures Unique(Rebound(cells, at, b))
  {
    assert !Assigned(Unbound);
    hide SameBinding, Assigned;
    forall c | 0 <= c < CELLS ensures SameBinding(cells[c], b) <==> cells[c] == b && Assigned(b) {
      SameIsEqual(cells[c], b);
    }
  }

  /** An input is put into a cell. */
  datatype Rebinding = Rebinding(at: nat, input: Binding)

  ghost predicate InTable(rebindings: seq<Rebinding>) {
    forall r :: r in rebindings ==> r.at < CELLS
  }

  ghost function AfterRebindings(start: Cells, rebindings: seq<Rebinding>): (cells: Cells)
    requires InTable(rebindings)
  {
    if rebindings == [] then start
    else
      var last := rebindings[|rebindings| - 1];
      Rebound(AfterRebindings(start, rebindings[..|rebindings| - 1]), last.at, last.input)
  }

  /** Whether the last rebinding that concerns the cell or the input put the input into the cell; `otherwise` if
      there is none. */
  predicate LastWord(rebindings: seq<Rebinding>, cell: nat, input: Binding, otherwise: bool) {
    if rebindings == [] then otherwise
    else
      var last := rebindings[|rebindings| - 1];
      if last.at == cell || last.input == input then last == Rebinding(cell, input)
      else LastWord(rebindings[..|rebindings| - 1], cell, input, otherwise)
  }

  /** After any rebindings a cell holds an input exactly if the last one that concerns either put it there. */
  lemma {:induction false} RebindingsDecide(start: Cells, rebindings: seq<Rebinding>, cell: nat, input: Binding)
    requires InTable(rebindings) && cell < CELLS && Assigned(input)
    ensures AfterRebindings(start, rebindings)[cell] == input
       <==> LastWord(rebindings, cell, input, start[cell] == input)
  {
    if rebindings != [] {
      var before, last := rebindings[..|rebindings| - 1], rebindings[|rebindings| - 1];
      assert last in rebindings;
      RebindingsDecide(start, before, cell, input);
      SameIsEqual(AfterRebindings(start, before)[cell], last.input);
      hide SameBinding;
    }
  }

  /** The cells before `n` have been cleared of `b`, except the one it goes to. */
  ghost predicate Cleared(cells: Cells, before: Cells, at: nat, b: Binding, n: nat) {
    forall c :: 0 <= c < CELLS ==>
      cells[c] == if c < n && c != at && SameBinding(before[c], b) then Unbound else before[c]
  }

  ghost function ClearedAt(cells: Cells, c: nat, same: bool): (r: Cells)
    requires c < CELLS
  {
    if same then cells[c := Unbound] else cells
  }

  lemma ClearedNone(cells: Cells, at: nat, b: Binding)
    ensures Cleared(cells, cells, at, b, 0)
  {
  }

  lemma ClearedSkip(cells: Cells, before: Cells, at: nat, b: Binding)
    requires Cleared(cells, before, at, b, at)
    ensures Cleared(cells, before, at, b, at + 1)
  {
    hide SameBinding;
  }

  lemma ClearedStep(before: Cells, cells: Cells, at: nat, b: Binding, c: nat)
    requires c < CELLS && c != at && Cleared(cells, before, at, b, c)
    ensures Cleared(ClearedAt(cells, c, SameBinding(cells[c], b)), before, at, b, c + 1)
  {
    hide SameBinding;
  }

  lemma UnassignedClearsNothing(cells: Cells, at: nat, b: Binding)
    ensures !Assigned(b) ==> Cleared(cells, cells, at, b, CELLS)
  {
    OnlyAssignedAreSame(b);
    hide SameBinding;
  }

  lemma ClearedIsRebound(cells: Cells, before: Cells, at: nat, b: Binding)
    requires at < CELLS && Cleared(cells, before, at, b, CELLS)
    ensures cells[at := b] == Rebound(before, at, b)
  {
    hide SameBinding;
  }

  datatype Device = KeyboardMouse | Controller

  class InputBindings {
    const keyboardMouse: array2<Binding>
    const controller: array2<Binding>

    ghost predicate Valid()
      reads this, keyboardMouse, controller
    {
      && keyboardMouse != controller
      && keyboardMouse.Length0 == controller.Length0 == ACTIONS
      && keyboardMouse.Length1 == controller.Length1 == SLOTS
      && Unique(Table(keyboardMouse)) && Unique(Table(controller))
    }

    static ghost function Table(table: array2<Binding>): (cells: Cells)
      requires table.Length0 == ACTIONS && table.Length1 == SLOTS
      reads table
    {
      seq(CELLS, c requires 0 <= c < CELLS && table.Length0 == ACTIONS && table.Length1 == SLOTS reads table
                 => table[c / 2, c % 2])
    }

    function TableFor(device: Device): (t: array2<Binding>) {
      if device.Controller? then controller else keyboardMouse
    }

    constructor ()
      ensures Valid() && fresh(keyboardMouse) && fresh(controller)
      ensures Table(keyboardMouse) == Table(controller) == NoBindings()
    {
      keyboardMouse := new Binding[ACTIONS, SLOTS]((_, _) => Unbound);
      controller := new Binding[ACTIONS, SLOTS]((_, _) => Unbound);
    }

    function Get(action: nat, device: Device, slot: nat): (b: Binding)
      requires Valid() && action < ACTIONS
      reads this, keyboardMouse, controller
      ensures slot < SLOTS ==> b == Table(TableFor(device))[2 * action + slot]
      ensures slot >= SLOTS ==> b == Unbound
    {
      if slot >= SLOTS then Unbound else TableFor(device)[action, slot]
    }

    method Rebind(action: nat, b: Binding, device: Device, slot: nat)
      requires Valid() && action < ACTIONS
      modifies TableFor(device)
      ensures Valid()
      ensures Table(TableFor(device)) ==
              if slot < SLOTS then Rebound(old(Table(TableFor(device))), 2 * action + slot, b)
              else old(Table(TableFor(device)))
    {
      if slot >= SLOTS {
        return;
      }
      hide SameBinding, Assigned, Unique, Cleared, Rebound;
      var table := TableFor(device);
      ghost var before, at := Table(table), 2 * action + slot;
      UnassignedClearsNothing(before, at, b);
      if Assigned(b) {
        ClearDuplicates(table, action, slot, b);
      }
      ghost var cleared := Table(table);
      table[action, slot] := b;
      assert Table(table) == cleared[at := b];
      ClearedIsRebound(cleared, before, at, b);
      ReboundKeepsUnique(before, at, b);
    }

    /** The loops of `Rebind`. */
    static method ClearDuplicates(table: array2<Binding>, action: nat, slot: nat, b: Binding)
      requires table.Length0 == ACTIONS && table.Length1 == SLOTS && action < ACTIONS && slot < SLOTS
      modifies table
      ensures Cleared(Table(table), old(Table(table)), 2 * action + slot, b, CELLS)
    {
      hide SameBinding, Cleared;
      ClearedNone(Table(table), 2 * action + slot, b);
      for other := 0 to ACTIONS
        invariant Cleared(Table(table), old(Table(table)), 2 * action + slot, b, 2 * other)
      {
        for otherSlot := 0 to SLOTS
          invariant Cleared(Table(table), old(Table(table)), 2 * action + slot, b, 2 * other + otherSlot)
        {
          if other == action && otherSlot == slot {
            ClearedSkip(Table(table), old(Table(table)), 2 * action + slot, b);
            continue;
          }
          ghost var cells := Table(table);
          var same := SameBinding(table[other, otherSlot], b);
          if same {
            table[other, otherSlot] := Unbound;
          }
          assert Table(table) == ClearedAt(cells, 2 * other + otherSlot, same);
          ClearedStep(old(Table(table)), cells, 2 * action + slot, b, 2 * other + otherSlot);
        }
      }
    }

  }

  // ---------------------------------------------------------------- names in the settings file

  function ActionKey(action: nat): (key: string)
    requires action < ACTIONS
  {
    match action
    case 0 => "forward"
    case 1 => "back"
    case 2 => "left"
    case 3 => "right"
    case 4 => "jump"
    case 5 => "crouch"
    case 6 => "ability-menu"
    case 7 => "ability-1"
    case 8 => "ability-2"
    case 9 => "shoot"
    case 10 => "scope"
    case 11 => "reload"
    case 12 => "pickup"
    case 13 => "switch-primary"
    case 14 => "switch-secondary"
    case 15 => "previous-weapon"
    case 16 => "next-weapon"
    case 17 => "cycle-grenade"
    case 18 => "throw-grenade"
    case 19 => "kill-self"
    case 20 => "scoreboard"
    case 21 => "emote"
    case _ => "push-to-talk"
  }

  /** The key of a cell; the second slot's has the suffix "-alt". */
  function KeyOf(cell: nat): (key: string)
    requires cell < CELLS
  {
    ActionKey(cell / 2) + (if cell % 2 == 1 then "-alt" else "")
  }

  /** Length, first two and last characters, and whether the fourth from the end is a dash: enough to tell keys
      apart. */
  function Mark(s: string): (m: (nat, char, char, char, bool))
    requires |s| >= 4
  {
    (|s|, s[0], s[1], s[|s| - 1], s[|s| - 4] == '-')
  }

  function ActionMark(action: nat): (m: (nat, char, char, char, bool))
    requires action < ACTIONS
  {
    [(7, 'f', 'o', 'd', false), (4, 'b', 'a', 'k', false), (4, 'l', 'e', 't', false), (5, 'r', 'i', 't', false),
     (4, 'j', 'u', 'p', false), (6, 'c', 'r', 'h', false), (12, 'a', 'b', 'u', false), (9, 'a', 'b', '1', false),
     (9, 'a', 'b', '2', false), (5, 's', 'h', 't', false), (5, 's', 'c', 'e', false), (6, 'r', 'e', 'd', false),
     (6, 'p', 'i', 'p', false), (14, 's', 'w', 'y', false), (16, 's', 'w', 'y', false), (15, 'p', 'r', 'n', false),
     (11, 'n', 'e', 'n', false), (13, 'c', 'y', 'e', false), (13, 't', 'h', 'e', false), (9, 'k', 'i', 'f', false),
     (10, 's', 'c', 'd', false), (5, 'e', 'm', 'e', false), (12, 'p', 'u', 'k', false)][action]
  }

  lemma ActionMarks(action: nat)
    requires action < ACTIONS
    ensures |ActionKey(action)| >= 4 && Mark(ActionKey(action)) == ActionMark(action)
  {
    hide ActionKey, ActionMark, Mark;
    if action < 8 {
      FirstActionMarks(action);
    } else if action < 16 {
      MiddleActionMarks(action);
    } else {
      LastActionMarks(action);
    }
  }

  lemma FirstActionMarks(action: nat)
    requires action < 8
    ensures |ActionKey(action)| >= 4 && Mark(ActionKey(action)) == ActionMark(action)
  {
  }

  lemma MiddleActionMarks(action: nat)
    requires 8 <= action < 16
    ensures |ActionKey(action)| >= 4 && Mark(ActionKey(action)) == ActionMark(action)
  {
  }

  lemma LastActionMarks(action: nat)
    requires 16 <= action < ACTIONS
    ensures |ActionKey(action)| >= 4 && Mark(ActionKey(action)) == ActionMark(action)
  {
  }

  lemma ActionMarksDiffer(a: nat, b: nat)
    requires a < ACTIONS && b < ACTIONS && ActionMark(a) == ActionMark(b)
    ensures a == b
  {
  }

  lemma SuffixTold(a: string, b: string, altA: bool, altB: bool)
    requires |a| >= 4 && |b| >= 4 && a[|a| - 4] != '-' && b[|b| - 4] != '-'
    requires a + (if altA then "-alt" else "") == b + (if altB then "-alt" else "")
    ensures a == b && altA == altB
  {
    var key := a + (if altA then "-alt" else "");
    assert key[..|a|] == a && key[..|b|] == b;
    assert altA ==> key[|key| - 4] == "-alt"[0];
    assert altB ==> key[|key| - 4] == "-alt"[0];
    assert !altA ==> key == a;
    assert !altB ==> key == b;
  }

  /** Different cells have different keys. */
  lemma KeysDiffer(c: nat, d: nat)
    requires c < CELLS && d < CELLS && KeyOf(c) == KeyOf(d)
    ensures c == d
  {
    hide ActionKey, ActionMark;
    ActionMarks(c / 2);
    ActionMarks(d / 2);
    NoDash(c / 2);
    NoDash(d / 2);
    SuffixTold(ActionKey(c / 2), ActionKey(d / 2), c % 2 == 1, d % 2 == 1);
    ActionMarksDiffer(c / 2, d / 2);
  }

  lemma NoDash(action: nat)
    requires action < ACTIONS
    ensures !ActionMark(action).4
  {
  }

  // ---------------------------------------------------------------- labels

  /** The inputs with a name of the program's own, in the order the loader compares them. */
  function Fixed(): (r: seq<(string, Binding)>)
    ensures |r| == 24
  {
    [
      ("Mouse Left", MouseButton(Left)), ("Mouse Middle", MouseButton(Middle)),
      ("Mouse Right", MouseButton(Right)), ("Mouse X1", MouseButton(X1)), ("Mouse X2", MouseButton(X2)),
      ("Mouse Wheel Up", MouseWheel(Up)), ("Mouse Wheel Down", MouseWheel(Down)),
      ("Gamepad South", GamepadButton(South)), ("Gamepad East", GamepadButton(East)),
      ("Gamepad West", GamepadButton(West)), ("Gamepad North", GamepadButton(North)),
      ("Gamepad Back", GamepadButton(Back)), ("Gamepad Start", GamepadButton(Start)),
      ("Gamepad Left Stick", GamepadButton(LeftStick)), ("Gamepad Right Stick", GamepadButton(RightStick)),
      ("Gamepad Left Shoulder", GamepadButton(LeftShoulder)),
      ("Gamepad Right Shoulder", GamepadButton(RightShoulder)), ("Gamepad D-Pad Up", GamepadButton(DPadUp)),
      ("Gamepad D-Pad Down", GamepadButton(DPadDown)), ("Gamepad D-Pad Left", GamepadButton(DPadLeft)),
      ("Gamepad D-Pad Right", GamepadButton(DPadRight)), ("Gamepad Touchpad", GamepadButton(Touchpad)),
      ("Gamepad Left Trigger", GamepadAxis(LeftTrigger)),
      ("Gamepad Right Trigger", GamepadAxis(RightTrigger))]
  }

  /** SDL's name of a scancode, and the scancode of a name (0 if there is none). */
  datatype Scancodes = Scancodes(nameOf: nat -> string, fromName: string -> nat)

  function LabelFrom(b: Binding, i: nat): (name: string)
    requires i <= |Fixed()|
    decreases |Fixed()| - i
  {
    if i == |Fixed()| then "Unbound" else if Fixed()[i].1 == b then Fixed()[i].0 else LabelFrom(b, i + 1)
  }

  function Label(sdl: Scancodes, b: Binding): (name: string) {
    match b
    case Unbound => "Unbound"
    case Keyboard(key) => if sdl.nameOf(key) != "" then sdl.nameOf(key) else "Unbound"
    case _ => LabelFrom(b, 0)
  }

  function ConfigValue(sdl: Scancodes, b: Binding): (value: string) {
    if Assigned(b) then Label(sdl, b) else ""
  }

  function NamedFrom(value: string, i: nat): (r: Option<Binding>)
    requires i <= |Fixed()|
    decreases |Fixed()| - i
  {
    if i == |Fixed()| then None else if Fixed()[i].0 == value then Some(Fixed()[i].1) else NamedFrom(value, i + 1)
  }

  function FromConfigValue(sdl: Scancodes, value: string): (r: Option<Binding>) {
    if value == "Unbound" || value == "" then Some(Unbound)
    else
      var named := NamedFrom(value, 0);
      if named.Some? then named
      else if sdl.fromName(value) != 0 then Some(Keyboard(sdl.fromName(value)))
      else None
  }

  /** Length and two characters: enough to tell the fixed labels apart. */
  function LabelMark(s: string): (m: (nat, char, char))
    requires |s| >= 8
  {
    (|s|, s[|s| - 3], s[|s| - 1])
  }

  function FixedMark(i: nat): (m: (nat, char, char))
    requires i < |Fixed()|
  {
    [
     (10, 'e', 't'), (12, 'd', 'e'), (11, 'g', 't'), (8, ' ', '1'), (8, ' ', '2'), (14, ' ', 'p'),
     (16, 'o', 'n'), (13, 'u', 'h'), (12, 'a', 't'), (12, 'e', 't'), (13, 'r', 'h'), (12, 'a', 'k'),
     (13, 'a', 't'), (18, 'i', 'k'), (19, 'i', 'k'), (21, 'd', 'r'), (22, 'd', 'r'), (16, ' ', 'p'),
     (18, 'o', 'n'), (18, 'e', 't'), (19, 'g', 't'), (16, 'p', 'd'), (20, 'g', 'r'), (21, 'g', 'r')][i]
  }

  lemma FixedMarks(i: nat)
    requires i < |Fixed()|
    ensures |Fixed()[i].0| >= 8 && LabelMark(Fixed()[i].0) == FixedMark(i)
  {
  }

  lemma FixedMarksDiffer(i: nat, j: nat)
    requires i < |Fixed()| && j < |Fixed()| && FixedMark(i) == FixedMark(j)
    ensures i == j
  {
  }

  /** The position of an input in the list, 24 if it has no name. */
  function Position(b: Binding): (i: nat) {
    match b
    case MouseButton(button) =>
      (match button case NoButton => 24 case Left => 0 case Middle => 1 case Right => 2 case X1 => 3 case X2 => 4)
    case MouseWheel(direction) => (match direction case NoDirection => 24 case Up => 5 case Down => 6)
    case GamepadButton(pad) => PadPosition(pad)
    case GamepadAxis(axis) => (match axis case NoAxis => 24 case LeftTrigger => 22 case RightTrigger => 23)
    case _ => 24
  }

  function PadPosition(pad: PadButton): (i: nat) {
    match pad
    case South => 7
    case East => 8
    case West => 9
    case North => 10
    case Back => 11
    case Start => 12
    case LeftStick => 13
    case RightStick => 14
    case LeftShoulder => 15
    case RightShoulder => 16
    case DPadUp => 17
    case DPadDown => 18
    case DPadLeft => 19
    case DPadRight => 20
    case Touchpad => 21
    case _ => 24
  }

  lemma PositionOf(i: nat)
    requires i < |Fixed()|
    ensures Position(Fixed()[i].1) == i
  {
  }

  lemma AtPosition(b: Binding)
    requires Position(b) < 24
    ensures Fixed()[Position(b)].1 == b
  {
  }

  lemma FixedBindingsDiffer(i: nat, j: nat)
    requires i < |Fixed()| && j < |Fixed()| && Fixed()[i].1 == Fixed()[j].1
    ensures i == j
  {
    hide Position, Fixed;
    PositionOf(i);
    PositionOf(j);
  }

  lemma {:induction false} NamedAt(i: nat, k: nat)
    requires k <= i < |Fixed()|
    ensures NamedFrom(Fixed()[i].0, k) == Some(Fixed()[i].1)
    decreases i - k
  {
    if Fixed()[k].0 == Fixed()[i].0 {
      FixedMarks(i);
      FixedMarks(k);
      FixedMarksDiffer(i, k);
    } else {
      NamedAt(i, k + 1);
    }
  }

  lemma {:induction false} LabelAt(i: nat, k: nat)
    requires k <= i < |Fixed()|
    ensures LabelFrom(Fixed()[i].1, k) == Fixed()[i].0
    decreases i - k
  {
    if Fixed()[k].1 == Fixed()[i].1 {
      FixedBindingsDiffer(i, k);
    } else {
      LabelAt(i, k + 1);
    }
  }

  lemma {:induction false} NotNamed(b: Binding, k: nat)
    requires k <= |Fixed()| && forall i :: k <= i < |Fixed()| ==> Fixed()[i].1 != b
    ensures LabelFrom(b, k) == "Unbound"
    decreases |Fixed()| - k
  {
    if k < |Fixed()| {
      NotNamed(b, k + 1);
    }
  }

  predicate HasFixedName(b: Binding) {
    exists i :: 0 <= i < |Fixed()| && Fixed()[i].1 == b
  }

  // ---------------------------------------------------------------- values in the file

  predicate PlainChar(c: char) {
    c != '"' && c != '\\' && (' ' <= c || c == '\t') && c as int != 0x7F
  }

  /** The characters that stand for themselves in a basic string of TOML 1.0, by the ranges of its grammar. */
  lemma PlainByGrammar(c: char)
    ensures PlainChar(c) <==>
              || c as int == 0x09 || 0x20 <= c as int <= 0x21 || 0x23 <= c as int <= 0x5B
              || 0x5D <= c as int <= 0x7E || 0x80 <= c as int
  {
    assert ' ' as int == 0x20 && '\t' as int == 0x09 && '"' as int == 0x22 && '\\' as int == 0x5C;
  }

  /** No quote, no backslash and no control character but tabs. */
  predicate Plain(value: string) {
    forall i :: 0 <= i < |value| ==> PlainChar(value[i])
  }

  /** Values are written between quotes as they are, without escaping. */
  function Written(value: string): (text: string) {
    "\"" + value + "\""
  }

  /** The value of a quoted text; None stands for a syntax error. */
  function ReadQuoted(text: string): (value: Option<string>) {
    if |text| >= 2 && text[0] == text[|text| - 1] == '"' && Plain(text[1..|text| - 1]) then Some(text[1..|text| - 1])
    else None
  }

  lemma WrittenReadsBack(value: string)
    ensures ReadQuoted(Written(value)) == if Plain(value) then Some(value) else None
  {
    assert Written(value)[1..|Written(value)| - 1] == value;
  }

  /** The input a saved label is read as. */
  function ReadBack(sdl: Scancodes, name: string): (r: Option<Binding>) {
    match ReadQuoted(Written(name))
    case None => None
    case Some(value) => FromConfigValue(sdl, value)
  }

  /** A scancode whose SDL name can be written, leads back to it and is no other input's label. */
  predicate GoodScancode(sdl: Scancodes, key: nat) {
    var name := sdl.nameOf(key);
    Plain(name) && name != "" && name != "Unbound" && NamedFrom(name, 0).None? && sdl.fromName(name) == key
  }

  /** The inputs that survive being saved and loaded. */
  predicate Restorable(sdl: Scancodes, b: Binding) {
    if b.Keyboard? then GoodScancode(sdl, b.key) else HasFixedName(b)
  }

  /** Exactly which assigned bindings survive being written and read: those with a fixed name, and good
      scancodes. */
  lemma LabelInvertsExactly(sdl: Scancodes, b: Binding)
    requires Assigned(b)
    ensures ReadBack(sdl, Label(sdl, b)) == Some(b) <==> Restorable(sdl, b)
  {
    hide LabelFrom, Fixed, Plain, ReadQuoted;
    WrittenReadsBack(Label(sdl, b));
    if !b.Keyboard? {
      if HasFixedName(b) {
        var i :| 0 <= i < |Fixed()| && Fixed()[i].1 == b;
        LabelAt(i, 0);
        NamedAt(i, 0);
        NotUnbound(i);
        FixedPlain(i);
      } else {
        NotNamed(b, 0);
      }
    } else {
      NamedAreNotKeyboard(sdl.nameOf(b.key), 0);
    }
  }

  lemma FixedPlain(i: nat)
    requires i < |Fixed()|
    ensures Plain(Fixed()[i].0)
  {
    hide Plain, Fixed;
    if i < 7 {
      MouseLabelsPlain(i);
    } else if i < 13 {
      ButtonLabelsPlain(i);
    } else if i < 15 {
      StickLabelsPlain(i);
    } else if i < 17 {
      ShoulderLabelsPlain(i);
    } else if i < 21 {
      DPadLabelsPlain(i);
    } else {
      LastLabelsPlain(i);
    }
  }

  lemma MouseLabelsPlain(i: nat)
    requires i < 7
    ensures Plain(Fixed()[i].0)
  {
  }

  lemma ButtonLabelsPlain(i: nat)
    requires 7 <= i < 13
    ensures Plain(Fixed()[i].0)
  {
  }

  lemma StickLabelsPlain(i: nat)
    requires 13 <= i < 15
    ensures Plain(Fixed()[i].0)
  {
  }

  lemma ShoulderLabelsPlain(i: nat)
    requires 15 <= i < 17
    ensures Plain(Fixed()[i].0)
  {
  }

  lemma DPadLabelsPlain(i: nat)
    requires 17 <= i < 21
    ensures Plain(Fixed()[i].0)
  {
  }

  lemma LastLabelsPlain(i: nat)
    requires 21 <= i < 24
    ensures Plain(Fixed()[i].0)
  {
  }

  /** What a value is read as is an assigned input or none at all: one with a fixed name, or a scancode that SDL
      knows; a value that is no name is not accepted. */
  lemma ValuesAreInputs(sdl: Scancodes, value: string)
    ensures var b := FromConfigValue(sdl, value);
            && (b.Some? ==> b.value == Unbound || Assigned(b.value))
            && (b.None? <==>
                  && value != "" && value != "Unbound" && sdl.fromName(value) == 0
                  && forall i :: 0 <= i < |Fixed()| ==> Fixed()[i].0 != value)
  {
    hide Fixed;
    NamedExactly(value, 0);
  }

  lemma {:induction false} NamedExactly(value: string, k: nat)
    requires k <= |Fixed()|
    ensures NamedFrom(value, k).None? <==> forall i :: k <= i < |Fixed()| ==> Fixed()[i].0 != value
    ensures NamedFrom(value, k).Some? ==> HasFixedName(NamedFrom(value, k).value)
    ensures NamedFrom(value, k).Some? ==> Assigned(NamedFrom(value, k).value)
    decreases |Fixed()| - k
  {
    hide Fixed;
    if k < |Fixed()| {
      AssignedExactly(Fixed()[k].1);
      NamedExactly(value, k + 1);
    }
  }

  /** Every input is shown with a label, and those that cannot be named as "Unbound". */
  lemma LabelsExactly(sdl: Scancodes, b: Binding)
    ensures Label(sdl, b) != ""
    ensures b.Keyboard? ==> Label(sdl, b) == if sdl.nameOf(b.key) == "" then "Unbound" else sdl.nameOf(b.key)
    ensures !b.Keyboard? && !HasFixedName(b) ==> Label(sdl, b) == "Unbound"
    ensures forall i :: 0 <= i < |Fixed()| && Fixed()[i].1 == b ==> Label(sdl, b) == Fixed()[i].0
  {
    hide Fixed, LabelFrom;
    if !b.Keyboard? {
      if HasFixedName(b) {
        forall i | 0 <= i < |Fixed()| && Fixed()[i].1 == b
          ensures Label(sdl, b) == Fixed()[i].0 && Fixed()[i].0 != ""
        {
          NotKeyboard(i);
          LabelAt(i, 0);
          NotUnbound(i);
        }
      } else {
        NotNamed(b, 0);
      }
    } else {
      forall i | 0 <= i < |Fixed()| ensures Fixed()[i].1 != b {
        NotKeyboard(i);
      }
    }
  }

  lemma NotKeyboard(i: nat)
    requires i < |Fixed()|
    ensures !Fixed()[i].1.Keyboard? && Fixed()[i].1 != Unbound
  {
  }

  lemma NotUnbound(i: nat)
    requires i < |Fixed()|
    ensures Fixed()[i].0 != "Unbound" && Fixed()[i].0 != ""
  {
    FixedMarks(i);
    assert |"Unbound"| == 7;
  }

  lemma {:induction false} NamedAreNotKeyboard(value: string, k: nat)
    requires k <= |Fixed()|
    ensures NamedFrom(value, k).Some? ==> !NamedFrom(value, k).value.Keyboard?
    decreases |Fixed()| - k
  {
    if k < |Fixed()| {
      NamedAreNotKeyboard(value, k + 1);
    }
  }

  /** The inputs that count as assigned: those with a name, the scancodes but 0, and the buttons without a name. */
  lemma AssignedExactly(b: Binding)
    ensures Assigned(b) <==>
              || HasFixedName(b)
              || (b.Keyboard? && b.key != 0)
              || (b.GamepadButton? && b.pad.OtherButton?)
  {
    hide Fixed;
    if Position(b) < 24 {
      AtPosition(b);
    } else if HasFixedName(b) {
      var i :| 0 <= i < |Fixed()| && Fixed()[i].1 == b;
      PositionOf(i);
    }
  }

  /** The buttons without a name are the only nameless inputs of a gamepad or mouse. */
  lemma NamelessInputs(b: Binding)
    requires Assigned(b) && !b.Keyboard?
    ensures HasFixedName(b) <==> !(b.GamepadButton? && b.pad.OtherButton?)
  {
    hide Fixed;
    if Position(b) < 24 {
      AtPosition(b);
    } else if HasFixedName(b) {
      var i :| 0 <= i < |Fixed()| && Fixed()[i].1 == b;
      PositionOf(i);
    }
  }

  // ---------------------------------------------------------------- saving and loading

  /** The values of one section of the settings file after its first `n` cells are written. */
  function Saved(sdl: Scancodes, cells: Cells, n: nat): (section: map<string, string>)
    requires n <= CELLS
  {
    if n == 0 then map[] else Saved(sdl, cells, n - 1)[KeyOf(n - 1) := ConfigValue(sdl, cells[n - 1])]
  }

  lemma {:induction false} SavedValue(sdl: Scancodes, cells: Cells, n: nat, c: nat)
    requires c < n <= CELLS
    ensures KeyOf(c) in Saved(sdl, cells, n) && Saved(sdl, cells, n)[KeyOf(c)] == ConfigValue(sdl, cells[c])
  {
    hide KeyOf, ConfigValue;
    if c < n - 1 {
      SavedValue(sdl, cells, n - 1, c);
      if KeyOf(c) == KeyOf(n - 1) {
        KeysDiffer(c, n - 1);
      }
    }
  }

  /** A value that does not parse leaves its cell as it was. */
  function LoadedCell(sdl: Scancodes, cells: Cells, section: map<string, string>, c: nat): (r: Cells)
    requires c < CELLS
  {
    if KeyOf(c) !in section then cells
    else
      match FromConfigValue(sdl, section[KeyOf(c)])
      case None => cells
      case Some(b) => Rebound(cells, c, b)
  }

  /** The table after the cells from `c` on are loaded. */
  function LoadedFrom(sdl: Scancodes, cells: Cells, section: map<string, string>, c: nat): (r: Cells)
    requires c <= CELLS
    decreases CELLS - c
  {
    if c == CELLS then cells else LoadedFrom(sdl, LoadedCell(sdl, cells, section, c), section, c + 1)
  }

  lemma NothingSaved(sdl: Scancodes, cells: Cells)
    ensures Saved(sdl, cells, 0) == map[]
  {
  }

  lemma KeysOfAction(action: nat)
    requires action < ACTIONS
    ensures KeyOf(2 * action) == ActionKey(action) && KeyOf(2 * action + 1) == ActionKey(action) + "-alt"
  {
    hide ActionKey;
    assert ActionKey(action) + "" == ActionKey(action);
  }

  lemma SavedTwice(sdl: Scancodes, cells: Cells, n: nat)
    requires n + 2 <= CELLS
    ensures Saved(sdl, cells, n + 2)
         == Saved(sdl, cells, n)[KeyOf(n) := ConfigValue(sdl, cells[n])][KeyOf(n + 1) := ConfigValue(sdl, cells[n + 1])]
  {
  }

  /** The texts of a section of values. */
  function Texts(section: map<string, string>): (texts: map<string, string>) {
    map key | key in section :: Written(section[key])
  }

  lemma TextsUpdate(section: map<string, string>, key: string, value: string)
    ensures Texts(section[key := value]) == Texts(section)[key := Written(value)]
  {
  }

  method SaveTable(sdl: Scancodes, bindings: InputBindings, device: Device) returns (texts: map<string, string>)
    requires bindings.Valid()
    ensures texts == Texts(Saved(sdl, InputBindings.Table(bindings.TableFor(device)), CELLS))
  {
    hide ConfigValue, ActionKey, KeyOf, Saved, Written;
    texts := map[];
    ghost var cells := InputBindings.Table(bindings.TableFor(device));
    NothingSaved(sdl, cells);
    for action := 0 to ACTIONS
      invariant texts == Texts(Saved(sdl, cells, 2 * action))
    {
      KeysOfAction(action);
      SavedTwice(sdl, cells, 2 * action);
      var first, second := bindings.Get(action, device, 0), bindings.Get(action, device, 1);
      ghost var section := Saved(sdl, cells, 2 * action);
      TextsUpdate(section, KeyOf(2 * action), ConfigValue(sdl, first));
      TextsUpdate(section[KeyOf(2 * action) := ConfigValue(sdl, first)], KeyOf(2 * action + 1),
                  ConfigValue(sdl, second));
      texts := texts[ActionKey(action) := Written(ConfigValue(sdl, first))];
      texts := texts[ActionKey(action) + "-alt" := Written(ConfigValue(sdl, second))];
    }
  }

  method LoadTable(sdl: Scancodes, section: map<string, string>, bindings: InputBindings, device: Device)
    requires bindings.Valid()
    modifies bindings.TableFor(device)
    ensures bindings.Valid()
    ensures InputBindings.Table(bindings.TableFor(device))
         == LoadedFrom(sdl, old(InputBindings.Table(bindings.TableFor(device))), section, 0)
  {
    hide FromConfigValue, KeyOf, Rebound;
    ghost var start := InputBindings.Table(bindings.TableFor(device));
    for action := 0 to ACTIONS
      invariant bindings.Valid()
      invariant LoadedFrom(sdl, InputBindings.Table(bindings.TableFor(device)), section, 2 * action)
             == LoadedFrom(sdl, start, section, 0)
    {
      for slot := 0 to SLOTS
        invariant bindings.Valid()
        invariant LoadedFrom(sdl, InputBindings.Table(bindings.TableFor(device)), section, 2 * action + slot)
               == LoadedFrom(sdl, start, section, 0)
      {
        var slotKey := KeyOf(2 * action + slot);
        if slotKey in section {
          var binding := FromConfigValue(sdl, section[slotKey]);
          if binding.Some? {
            bindings.Rebind(action, binding.value, device, slot);
          }
        }
      }
    }
  }

  /** The table with every value that is no input written as unbound. */
  function Normalised(cells: Cells): (r: Cells) {
    seq(CELLS, c requires 0 <= c < CELLS => if Assigned(cells[c]) then cells[c] else Unbound)
  }

  ghost predicate AllRestorable(sdl: Scancodes, cells: Cells) {
    forall c :: 0 <= c < CELLS && Assigned(cells[c]) ==> Restorable(sdl, cells[c])
  }

  lemma SavedParses(sdl: Scancodes, cells: Cells, c: nat)
    requires AllRestorable(sdl, cells) && c < CELLS
    ensures KeyOf(c) in Saved(sdl, cells, CELLS)
    ensures FromConfigValue(sdl, Saved(sdl, cells, CELLS)[KeyOf(c)]) == Some(Normalised(cells)[c])
    ensures Plain(ConfigValue(sdl, cells[c]))
  {
    hide Saved, Plain, KeyOf, Label, FromConfigValue;
    SavedValue(sdl, cells, CELLS, c);
    if Assigned(cells[c]) {
      LabelInvertsExactly(sdl, cells[c]);
      WrittenReadsBack(Label(sdl, cells[c]));
    } else {
      EmptyValue(sdl);
    }
  }

  lemma EmptyValue(sdl: Scancodes)
    ensures Plain("") && FromConfigValue(sdl, "") == Some(Unbound)
  {
  }

  lemma ReboundRestores(cells: Cells, now: Cells, c: nat)
    requires Unique(cells) && c < CELLS && forall d :: 0 <= d < c ==> now[d] == Normalised(cells)[d]
    ensures forall d :: 0 <= d < c + 1 ==> Rebound(now, c, Normalised(cells)[c])[d] == Normalised(cells)[d]
  {
  }

  lemma {:induction false} LoadRestores(sdl: Scancodes, cells: Cells, now: Cells, c: nat)
    requires Unique(cells) && AllRestorable(sdl, cells) && c <= CELLS
    requires forall d :: 0 <= d < c ==> now[d] == Normalised(cells)[d]
    ensures LoadedFrom(sdl, now, Saved(sdl, cells, CELLS), c) == Normalised(cells)
    decreases CELLS - c
  {
    if c < CELLS {
      hide Saved, FromConfigValue, KeyOf, AllRestorable, Rebound, Unique, Normalised;
      SavedParses(sdl, cells, c);
      ReboundRestores(cells, now, c);
      LoadRestores(sdl, cells, LoadedCell(sdl, now, Saved(sdl, cells, CELLS), c), c + 1);
    }
  }

  /** A cell whose value parses ends as what it parses to, or unbound. */
  lemma {:induction false} LoadGivesParsed(sdl: Scancodes, now: Cells, section: map<string, string>, c: nat, d: nat)
    requires c <= CELLS && d < CELLS
    requires || now[d] == Unbound
             || (KeyOf(d) in section && FromConfigValue(sdl, section[KeyOf(d)]) == Some(now[d]))
             || (c <= d && KeyOf(d) in section && FromConfigValue(sdl, section[KeyOf(d)]).Some?)
    ensures var end := LoadedFrom(sdl, now, section, c)[d];
            end == Unbound || (KeyOf(d) in section && FromConfigValue(sdl, section[KeyOf(d)]) == Some(end))
    decreases CELLS - c
  {
    hide FromConfigValue, KeyOf;
    if c < CELLS {
      LoadGivesParsed(sdl, LoadedCell(sdl, now, section, c), section, c + 1, d);
    }
  }

  // ---------------------------------------------------------------- the settings file

  datatype Tables = Tables(keyboardMouse: Cells, controller: Cells)

  /** The texts under the keys of the two sections. */
  datatype File = File(keyboardMouse: map<string, string>, controller: map<string, string>)

  /** None if one of the texts cannot be read. */
  function ReadSection(texts: map<string, string>): (section: Option<map<string, string>>) {
    if exists key :: key in texts && ReadQuoted(texts[key]).None? then None
    else Some(map key | key in texts :: ReadQuoted(texts[key]).value)
  }

  function SavedFile(sdl: Scancodes, t: Tables): (file: File) {
    File(Texts(Saved(sdl, t.keyboardMouse, CELLS)), Texts(Saved(sdl, t.controller, CELLS)))
  }

  /** A text that cannot be read anywhere leaves both tables as they are. */
  function LoadedTables(sdl: Scancodes, file: File, start: Tables): (t: Tables) {
    match (ReadSection(file.keyboardMouse), ReadSection(file.controller))
    case (Some(keyboardMouse), Some(controller)) =>
      Tables(LoadedFrom(sdl, start.keyboardMouse, keyboardMouse, 0),
             LoadedFrom(sdl, start.controller, controller, 0))
    case _ => start
  }

  method Save(sdl: Scancodes, bindings: InputBindings) returns (file: File)
    requires bindings.Valid()
    ensures file == SavedFile(sdl, Tables(InputBindings.Table(bindings.keyboardMouse),
                                          InputBindings.Table(bindings.controller)))
  {
    var keyboardMouse := SaveTable(sdl, bindings, KeyboardMouse);
    var controller := SaveTable(sdl, bindings, Controller);
    return File(keyboardMouse, controller);
  }

  method Load(sdl: Scancodes, file: File, bindings: InputBindings)
    requires bindings.Valid()
    modifies bindings.keyboardMouse, bindings.controller
    ensures bindings.Valid()
    ensures Tables(InputBindings.Table(bindings.keyboardMouse), InputBindings.Table(bindings.controller))
         == LoadedTables(sdl, file, old(Tables(InputBindings.Table(bindings.keyboardMouse),
                                               InputBindings.Table(bindings.controller))))
  {
    hide LoadedFrom, ReadSection;
    var keyboardMouse, controller := ReadSection(file.keyboardMouse), ReadSection(file.controller);
    if keyboardMouse.None? || controller.None? {
      return;
    }
    LoadTable(sdl, keyboardMouse.value, bindings, KeyboardMouse);
    LoadTable(sdl, controller.value, bindings, Controller);
  }

  ghost predicate AllPlain(sdl: Scancodes, cells: Cells) {
    forall c :: 0 <= c < CELLS ==> Plain(ConfigValue(sdl, cells[c]))
  }

  lemma {:induction false} SavedKey(sdl: Scancodes, cells: Cells, n: nat, key: string)
    requires n <= CELLS && AllPlain(sdl, cells) && key in Saved(sdl, cells, n)
    ensures Plain(Saved(sdl, cells, n)[key])
  {
    hide KeyOf, ConfigValue, Plain;
    if n > 0 && key != KeyOf(n - 1) {
      SavedKey(sdl, cells, n - 1, key);
    }
  }

  lemma TextsRead(section: map<string, string>)
    ensures ReadSection(Texts(section)) ==
            if (forall key :: key in section ==> Plain(section[key])) then Some(section) else None
  {
    hide Plain, ReadQuoted, Written;
    forall key | key in section
      ensures ReadQuoted(Texts(section)[key]) == if Plain(section[key]) then Some(section[key]) else None
    {
      WrittenReadsBack(section[key]);
    }
    if forall key :: key in section ==> Plain(section[key]) {
      assert ReadSection(Texts(section)).value == section;
    } else {
      var key :| key in section && !Plain(section[key]);
      assert key in Texts(section);
    }
  }

  /** A saved section can be read if and only if all its values are plain. */
  lemma SavedSectionReads(sdl: Scancodes, cells: Cells)
    ensures var section := Saved(sdl, cells, CELLS);
            ReadSection(Texts(section)) == if AllPlain(sdl, cells) then Some(section) else None
  {
    hide Saved, ConfigValue, Plain, KeyOf, ReadSection, Texts;
    var section := Saved(sdl, cells, CELLS);
    TextsRead(section);
    if AllPlain(sdl, cells) {
      forall key | key in section ensures Plain(section[key]) {
        SavedKey(sdl, cells, CELLS, key);
      }
    } else {
      var c :| 0 <= c < CELLS && !Plain(ConfigValue(sdl, cells[c]));
      SavedValue(sdl, cells, CELLS, c);
    }
  }

  lemma RestorableArePlain(sdl: Scancodes, cells: Cells)
    requires AllRestorable(sdl, cells)
    ensures AllPlain(sdl, cells)
  {
    hide Plain, ConfigValue, AllRestorable;
    forall c | 0 <= c < CELLS ensures Plain(ConfigValue(sdl, cells[c])) {
      SavedParses(sdl, cells, c);
    }
  }

  lemma SavedTableRestores(sdl: Scancodes, cells: Cells, start: Cells)
    requires Unique(cells) && AllRestorable(sdl, cells)
    ensures LoadedFrom(sdl, start, Saved(sdl, cells, CELLS), 0) == Normalised(cells)
  {
    LoadRestores(sdl, cells, start, 0);
  }

  /** A table with an input that is not restorable is lost in one of two ways. */
  lemma UnrestorableTable(sdl: Scancodes, cells: Cells)
    requires !AllRestorable(sdl, cells)
    ensures Normalised(cells) != NoBindings()
    ensures AllPlain(sdl, cells) ==> LoadedFrom(sdl, NoBindings(), Saved(sdl, cells, CELLS), 0) != Normalised(cells)
  {
    hide Plain, Restorable, FromConfigValue, KeyOf, Saved;
    var c :| 0 <= c < CELLS && Assigned(cells[c]) && !Restorable(sdl, cells[c]);
    assert Normalised(cells)[c] == cells[c] != Unbound == NoBindings()[c];
    if AllPlain(sdl, cells) {
      SavedValue(sdl, cells, CELLS, c);
      LabelInvertsExactly(sdl, cells[c]);
      WrittenReadsBack(Label(sdl, cells[c]));
      LoadGivesParsed(sdl, NoBindings(), Saved(sdl, cells, CELLS), 0, c);
    }
  }

  /** Loading saved bindings over any bindings restores them (with every unassigned value as unbound) if and only
      if every assigned binding is restorable: it has a fixed name or is a good scancode. */
  lemma SaveLoadRoundTrip(sdl: Scancodes, t: Tables)
    requires Unique(t.keyboardMouse) && Unique(t.controller)
    ensures (forall start: Tables ::
               LoadedTables(sdl, SavedFile(sdl, t), start)
               == Tables(Normalised(t.keyboardMouse), Normalised(t.controller)))
       <==> AllRestorable(sdl, t.keyboardMouse) && AllRestorable(sdl, t.controller)
  {
    hide Normalised, LoadedFrom, Saved, AllPlain, AllRestorable, Unique;
    SavedSectionReads(sdl, t.keyboardMouse);
    SavedSectionReads(sdl, t.controller);
    var restored := Tables(Normalised(t.keyboardMouse), Normalised(t.controller));
    if AllRestorable(sdl, t.keyboardMouse) && AllRestorable(sdl, t.controller) {
      RestorableArePlain(sdl, t.keyboardMouse);
      RestorableArePlain(sdl, t.controller);
      forall start: Tables ensures LoadedTables(sdl, SavedFile(sdl, t), start) == restored {
        SavedTableRestores(sdl, t.keyboardMouse, start.keyboardMouse);
        SavedTableRestores(sdl, t.controller, start.controller);
      }
    } else {
      if !AllRestorable(sdl, t.keyboardMouse) {
        UnrestorableTable(sdl, t.keyboardMouse);
      } else {
        UnrestorableTable(sdl, t.controller);
      }
      assert LoadedTables(sdl, SavedFile(sdl, t), Tables(NoBindings(), NoBindings())) != restored;
    }
  }

  /** Binding the backslash key loses all bindings: SDL's name for it is not escaped when it is written, and the
      file can no longer be read, although the name leads back to the key. */
  lemma BackslashKeyLosesFile(sdl: Scancodes, t: Tables, key: nat, c: nat, start: Tables)
    requires c < CELLS && t.keyboardMouse[c] == Keyboard(key) && key != 0
    requires sdl.nameOf(key) == "\\" && sdl.fromName("\\") == key
    ensures FromConfigValue(sdl, Label(sdl, Keyboard(key))) == Some(Keyboard(key))
    ensures LoadedTables(sdl, SavedFile(sdl, t), start) == start
  {
    ShortNotNamed("\\", 0);
    SavedSectionReads(sdl, t.keyboardMouse);
    assert !PlainChar("\\"[0]);
    assert ConfigValue(sdl, t.keyboardMouse[c]) == "\\";
    hide Saved, NamedFrom;
  }

  lemma {:induction false} ShortNotNamed(value: string, k: nat)
    requires k <= |Fixed()| && |value| < 8
    ensures NamedFrom(value, k).None?
    decreases |Fixed()| - k
  {
    hide Fixed;
    if k < |Fixed()| {
      FixedMarks(k);
      ShortNotNamed(value, k + 1);
    }
  }

  /** A gamepad button the program has no name for is saved as "Unbound" and loaded as that. */
  lemma UnnamedButtonLost(sdl: Scancodes, cells: Cells, c: nat, code: nat, start: Cells)
    requires c < CELLS && cells[c] == GamepadButton(OtherButton(code))
    ensures LoadedFrom(sdl, start, Saved(sdl, cells, CELLS), 0)[c] == Unbound != Normalised(cells)[c]
  {
    hide Saved, Fixed;
    SavedValue(sdl, cells, CELLS, c);
    NamelessInputs(cells[c]);
    NotNamed(cells[c], 0);
    LoadGivesParsed(sdl, start, Saved(sdl, cells, CELLS), 0, c);
  }
}
