/**
 * The scramble transition of the `TextScramble` component: when the target text changes,
 * a table of cells is built, one per position of the longer of the previous and the new
 * text, each with a time window; every animation frame turns the table and the elapsed
 * time into the displayed string, until every window has closed and the display settles
 * on the target.
 *
 * The browser's clock, animation-frame scheduler and `Math.random` are not modelled as
 * such: times are parameters, scheduled frames are the ids in `pending`, and what the
 * random numbers decide is passed in: a roll in [0, 1) where a random number is used as
 * it is, and the resulting integer, constrained to the values it can take, where it is
 * rounded down.
 */
module TextScramble {

  const DefaultScrambleSpeed: nat := 60
  const DefaultScrambleFactor: nat := 24
  const DefaultCharacterSet: string :=
    "ABCDEFGHIJKLMNOPQRSTUVWXYZabcdefghijklmnopqrstuvwxyz0123456789!<>-_\\/[]{}—=+*^?#░▒▓█▄▀■□"

  /** The four inputs the transition depends on. */
  datatype Props = Props(text: string, scrambleSpeed: nat, scrambleFactor: nat, characterSet: string)

  /** The component's props with their default values for everything but the text. */
  function WithDefaults(text: string): Props {
    Props(text, DefaultScrambleSpeed, DefaultScrambleFactor, DefaultCharacterSet)
  }

  /** One position of the transition: the character it leaves (or `""`), the character it
      reaches (or `""`), and the window in which it scrambles, in milliseconds after the
      start. */
  datatype Cell = Cell(from: string, to: string, start: int, end: real)

  /** What the randomness decides while a cell is built: the start slot, the value of
      `Math.floor(Math.random() * scrambleFactor * stagger)`, and the roll `Math.random()`
      that sets the duration. */
  datatype Draw = Draw(slot: int, durationRoll: real)

  /** What a frame does with a cell inside its window (unless both characters are spaces):
      show the target character, or the character of the set at an index that is the value
      of `Math.floor(Math.random() * characterSet.length)`. */
  datatype Choice = KeepTarget | Glyph(index: int)

  /** A value `Math.random()` can return. */
  predicate IsRoll(r: real) {
    0.0 <= r < 1.0
  }

  /** The values `Math.floor(r * bound)` takes for `r` in [0, 1): 0, and every natural
      number below `bound`. */
  predicate FloorOfRoll(k: int, bound: real) {
    k == 0 || (0 < k && (k as real) < bound)
  }

  predicate DrawsAllowed(draws: seq<Draw>, factor: nat) {
    forall i :: 0 <= i < |draws| ==>
      FloorOfRoll(draws[i].slot, (factor as real) * Stagger(i)) && IsRoll(draws[i].durationRoll)
  }

  predicate ChoicesAllowed(choices: seq<Choice>, characterSet: string) {
    forall i :: 0 <= i < |choices| ==>
      (choices[i].Glyph? ==> FloorOfRoll(choices[i].index, |characterSet| as real))
  }

  function Max(a: int, b: int): int {
    if a < b then b else a
  }

  /** `s[i]` as a string when `i` is inside `s`, and `""` past its end. */
  function CharAt(s: string, i: nat): string {
    if i < |s| then [s[i]] else ""
  }

  // ------------------------------------------------------------------------------------
  // The cell table
  // ------------------------------------------------------------------------------------

  /** `Math.min(1, i / 30)`: later positions may start later, up to the 30th. */
  function Stagger(i: nat): real {
    if (i as real) / 30.0 < 1.0 then (i as real) / 30.0 else 1.0
  }

  /** `scrambleSpeed * (2 + roll * scrambleFactor)`. */
  function Duration(roll: real, speed: nat, factor: nat): real {
    (speed as real) * (2.0 + roll * (factor as real))
  }

  /** The cell the construction loop pushes for position `i`. */
  function CellAt(previous: string, text: string, i: nat, draw: Draw, speed: nat, factor: nat): Cell {
    var start := draw.slot * speed + i * 20;
    Cell(CharAt(previous, i), CharAt(text, i), start, start as real + Duration(draw.durationRoll, speed, factor))
  }

  /** The table built from the previous text, the new text and one draw per position. */
  function Table(previous: string, text: string, draws: seq<Draw>, speed: nat, factor: nat): seq<Cell>
    requires |draws| == Max(|previous|, |text|)
  {
    seq(|draws|, i requires 0 <= i < |draws| => CellAt(previous, text, i, draws[i], speed, factor))
  }

  /** The loop of the effect that builds the table. */
  method BuildCells(previous: string, text: string, draws: seq<Draw>, speed: nat, factor: nat)
    returns (cells: seq<Cell>)
    requires |draws| == Max(|previous|, |text|)
    ensures cells == Table(previous, text, draws, speed, factor)
  {
    var maxLength := Max(|previous|, |text|);
    cells := [];
    for i := 0 to maxLength
      invariant |cells| == i
      invariant forall j :: 0 <= j < i ==> cells[j] == CellAt(previous, text, j, draws[j], speed, factor)
    {
      var from := CharAt(previous, i);
      var to := CharAt(text, i);
      var randomStart := draws[i].slot * speed;
      var start := randomStart + i * 20;
      var end := start as real + Duration(draws[i].durationRoll, speed, factor);
      cells := cells + [Cell(from, to, start, end)];
    }
  }

  /** The `to` fields joined in index order. */
  function Targets(cells: seq<Cell>): string {
    if cells == [] then "" else Targets(cells[..|cells| - 1]) + cells[|cells| - 1].to
  }

  /** The `from` fields joined in index order. */
  function Sources(cells: seq<Cell>): string {
    if cells == [] then "" else Sources(cells[..|cells| - 1]) + cells[|cells| - 1].from
  }

  lemma {:induction false} TargetsUpTo(previous: string, text: string, draws: seq<Draw>, speed: nat, factor: nat, i: nat)
    requires |draws| == Max(|previous|, |text|) && i <= |draws|
    ensures Targets(Table(previous, text, draws, speed, factor)[..i]) == text[..if i < |text| then i else |text|]
  {
    var cells := Table(previous, text, draws, speed, factor);
    if i > 0 {
      TargetsUpTo(previous, text, draws, speed, factor, i - 1);
      assert cells[..i][..i - 1] == cells[..i - 1];
      if i <= |text| {
        assert text[..i] == text[..i - 1] + [text[i - 1]];
      }
    }
  }

  lemma {:induction false} SourcesUpTo(previous: string, text: string, draws: seq<Draw>, speed: nat, factor: nat, i: nat)
    requires |draws| == Max(|previous|, |text|) && i <= |draws|
    ensures Sources(Table(previous, text, draws, speed, factor)[..i]) == previous[..if i < |previous| then i else |previous|]
  {
    var cells := Table(previous, text, draws, speed, factor);
    if i > 0 {
      SourcesUpTo(previous, text, draws, speed, factor, i - 1);
      assert cells[..i][..i - 1] == cells[..i - 1];
      if i <= |previous| {
        assert previous[..i] == previous[..i - 1] + [previous[i - 1]];
      }
    }
  }

  /** The table lines up with both strings: one cell per position of the longer one, and
      joining the `to` fields gives the new text, joining the `from` fields the previous
      text, because past a string's end the field is empty. */
  lemma TableLinesUp(previous: string, text: string, draws: seq<Draw>, speed: nat, factor: nat)
    requires |draws| == Max(|previous|, |text|)
    ensures |Table(previous, text, draws, speed, factor)| == Max(|previous|, |text|)
    ensures Targets(Table(previous, text, draws, speed, factor)) == text
    ensures Sources(Table(previous, text, draws, speed, factor)) == previous
  {
    var cells := Table(previous, text, draws, speed, factor);
    TargetsUpTo(previous, text, draws, speed, factor, |draws|);
    SourcesUpTo(previous, text, draws, speed, factor, |draws|);
    assert cells[..|draws|] == cells;
    assert text[..|text|] == text;
    assert previous[..|previous|] == previous;
  }

  // ------------------------------------------------------------------------------------
  // Timing of the windows
  // ------------------------------------------------------------------------------------

  /** An allowed start slot is a natural number below `scrambleFactor * min(1, i / 30)`, or
      0, stated on integers. */
  lemma SlotBounds(i: nat, k: int, factor: nat)
    requires FloorOfRoll(k, (factor as real) * Stagger(i))
    ensures 0 <= k && (k == 0 || (if i < 30 then 30 * k < factor * i else k < factor))
  {
    if k != 0 {
      if i < 30 {
        EarlySlot(factor, i, k);
      } else {
        assert Stagger(i) == 1.0;
      }
    }
  }

  lemma EarlySlot(factor: nat, i: nat, k: int)
    requires i < 30 && (k as real) < (factor as real) * Stagger(i)
    ensures 30 * k < factor * i
  {
    assert (factor as real) * Stagger(i) == (factor as real) * (i as real) / 30.0;
    assert (30 * k) as real < (factor * i) as real;
  }

  /** `roll * b` lies in `[0, b)` for a positive `b`, and is 0 when `b` is 0. */
  lemma ProductBelow(roll: real, b: real)
    requires IsRoll(roll) && 0.0 <= b
    ensures 0.0 <= roll * b && (roll * b == 0.0 || roll * b < b)
  {
    if b > 0.0 {
      assert roll * b < 1.0 * b;
    }
  }

  /** The scramble duration is at least two `scrambleSpeed` steps and below
      `scrambleSpeed * (2 + scrambleFactor)`, or exactly two steps when that range is
      empty. */
  lemma DurationBounds(roll: real, speed: nat, factor: nat)
    requires IsRoll(roll)
    ensures var d := Duration(roll, speed, factor);
      var s := speed as real;
      2.0 * s <= d <= s * (2.0 + factor as real)
      && (d == 2.0 * s || d < s * (2.0 + factor as real))
  {
    ProductBelow(roll, factor as real);
    ScaleBelow(speed as real, roll * (factor as real), factor as real);
    DurationSplit(roll, speed, factor);
  }

  lemma DurationSplit(roll: real, speed: nat, factor: nat)
    ensures Duration(roll, speed, factor) == 2.0 * (speed as real) + (speed as real) * (roll * (factor as real))
    ensures (speed as real) * (2.0 + factor as real) == 2.0 * (speed as real) + (speed as real) * (factor as real)
  {
  }

  /** Scaling `0 <= x < f` (or `x == 0`) by `s >= 0`. */
  lemma ScaleBelow(s: real, x: real, f: real)
    requires 0.0 <= s && 0.0 <= x && (x == 0.0 || x < f)
    ensures 0.0 <= s * x && (s * x == 0.0 || s * x < s * f)
  {
    if s == 0.0 || x == 0.0 {
      assert s * x == 0.0;
    } else {
      assert s * f - s * x == s * (f - x);
      PositiveProduct(s, f - x);
    }
  }

  lemma PositiveProduct(a: real, b: real)
    requires 0.0 < a && 0.0 < b
    ensures 0.0 < a * b
  {
  }

  /** The windows of the table: position `i` starts `i * 20` ms plus a whole number of
      `scrambleSpeed` steps in, position 0 starts at once, and each window lasts at least
      two steps. */
  lemma TableTiming(previous: string, text: string, draws: seq<Draw>, speed: nat, factor: nat, i: nat)
    requires |draws| == Max(|previous|, |text|) && DrawsAllowed(draws, factor) && i < |draws|
    ensures var c := Table(previous, text, draws, speed, factor)[i];
      var k := draws[i].slot;
      c.start == k * speed + 20 * i
      && 0 <= k && (k == 0 || (if i < 30 then 30 * k < factor * i else k < factor))
      && (i == 0 ==> c.start == 0)
      && (c.start + 2 * speed) as real <= c.end
  {
    SlotBounds(i, draws[i].slot, factor);
    DurationBounds(draws[i].durationRoll, speed, factor);
  }

  /** No window of a table of `n` cells is still open at this time. */
  function Deadline(n: nat, speed: nat, factor: nat): int {
    20 * n + speed * (2 * factor + 2)
  }

  lemma CellDeadline(previous: string, text: string, draws: seq<Draw>, speed: nat, factor: nat, i: nat)
    requires |draws| == Max(|previous|, |text|) && DrawsAllowed(draws, factor) && i < |draws|
    ensures Table(previous, text, draws, speed, factor)[i].end
      < Deadline(|draws|, speed, factor) as real
  {
    var c := Table(previous, text, draws, speed, factor)[i];
    var k := draws[i].slot;
    SlotBounds(i, k, factor);
    assert k <= factor by {
      if k != 0 && i < 30 {
        MulMonotonic(i, 30, factor);
      }
    }
    MulMonotonic(k, factor, speed);
    var d := Duration(draws[i].durationRoll, speed, factor);
    DurationBounds(draws[i].durationRoll, speed, factor);
    CastProduct(speed, factor);
    DeadlineSplit(|draws|, speed, factor);
    assert c.end == (k * speed + 20 * i) as real + d;
  }

  lemma CastProduct(speed: nat, factor: nat)
    ensures (speed * (2 + factor)) as real == (speed as real) * (2.0 + factor as real)
  {
  }

  lemma DeadlineSplit(n: nat, speed: nat, factor: nat)
    ensures Deadline(n, speed, factor) == 20 * n + factor * speed + speed * (2 + factor)
  {
  }

  lemma MulMonotonic(a: int, b: int, c: nat)
    requires a <= b
    ensures a * c <= b * c
  {
    assert b * c - a * c == (b - a) * c;
  }

  /** Every animation settles: once the elapsed time reaches the deadline, every window
      of the table has closed. */
  lemma SettledByDeadline(previous: string, text: string, draws: seq<Draw>, speed: nat, factor: nat, elapsed: int)
    requires |draws| == Max(|previous|, |text|) && DrawsAllowed(draws, factor)
    requires elapsed >= Deadline(|draws|, speed, factor)
    ensures Settled(Table(previous, text, draws, speed, factor), elapsed)
  {
    forall i | 0 <= i < |draws|
      ensures elapsed as real > Table(previous, text, draws, speed, factor)[i].end
    {
      CellDeadline(previous, text, draws, speed, factor, i);
    }
  }

  /** With the settings the page passes (`scrambleSpeed` 60, `scrambleFactor` 24, which are
      also the defaults), a transition of `n` cells is over 20 * n + 3000 ms after it
      starts, and the glyph set is not empty, so a scrambled cell never shows `undefined`. */
  lemma PageTransitionSettles(previous: string, text: string, draws: seq<Draw>, elapsed: int)
    requires |draws| == Max(|previous|, |text|) && DrawsAllowed(draws, DefaultScrambleFactor)
    requires elapsed >= 20 * |draws| + 3000
    ensures var p := WithDefaults(text);
      Settled(Table(previous, p.text, draws, p.scrambleSpeed, p.scrambleFactor), elapsed)
      && p.characterSet != []
  {
    var p := WithDefaults(text);
    assert Deadline(|draws|, p.scrambleSpeed, p.scrambleFactor) == 20 * |draws| + 3000;
    SettledByDeadline(previous, text, draws, p.scrambleSpeed, p.scrambleFactor, elapsed);
    assert |DefaultCharacterSet| == 88;
  }

  // ------------------------------------------------------------------------------------
  // One frame
  // ------------------------------------------------------------------------------------

  /** `characterSet[charIndex]` appended to a string: the character at that index, or the
      text `undefined` when there is none there, as for an empty set. */
  function GlyphAt(characterSet: string, index: int): string {
    if 0 <= index < |characterSet| then [characterSet[index]] else "undefined"
  }

  /** An index drawn for the set picks one of its characters; for an empty set the index
      is 0 and the text `undefined` is shown. */
  lemma GlyphInSet(characterSet: string, index: int)
    requires FloorOfRoll(index, |characterSet| as real)
    ensures characterSet != [] ==> |GlyphAt(characterSet, index)| == 1 && GlyphAt(characterSet, index)[0] in characterSet
    ensures characterSet == [] ==> GlyphAt(characterSet, index) == "undefined"
  {
  }

  /** What one cell adds to the output of a frame at `elapsed`. */
  function CellText(c: Cell, elapsed: int, choice: Choice, characterSet: string): string {
    if elapsed as real > c.end then c.to
    else if elapsed > c.start then
      if c.to == " " && c.from == " " then " "
      else match choice
        case KeepTarget => c.to
        case Glyph(index) => GlyphAt(characterSet, index)
    else c.from
  }

  /** Which window a cell is in decides what it shows: its old character before its start,
      its new character after its end, and in between a space when both are spaces and
      otherwise the new character or a character of the set. */
  lemma CellTextByWindow(c: Cell, elapsed: int, choice: Choice, characterSet: string)
    requires c.start as real <= c.end
    requires choice.Glyph? ==> FloorOfRoll(choice.index, |characterSet| as real)
    ensures var r := CellText(c, elapsed, choice, characterSet);
      (elapsed <= c.start ==> r == c.from)
      && (elapsed as real > c.end ==> r == c.to)
      && (c.start < elapsed && elapsed as real <= c.end ==>
            if c.to == " " && c.from == " " then r == " "
            else r == c.to || (characterSet != [] && |r| == 1 && r[0] in characterSet)
                 || (characterSet == [] && r == "undefined"))
  {
    if choice.Glyph? {
      GlyphInSet(characterSet, choice.index);
    }
  }

  /** The output of a frame: the cells' texts in index order. */
  function Shown(cells: seq<Cell>, elapsed: int, choices: seq<Choice>, characterSet: string): string
    requires |choices| == |cells|
  {
    if cells == [] then ""
    else
      var n := |cells| - 1;
      Shown(cells[..n], elapsed, choices[..n], characterSet) + CellText(cells[n], elapsed, choices[n], characterSet)
  }

  /** Every window has closed. */
  predicate Settled(cells: seq<Cell>, elapsed: int) {
    forall i :: 0 <= i < |cells| ==> elapsed as real > cells[i].end
  }

  /** The loop of `update`: the output string and the `complete` flag of a frame. */
  method Render(cells: seq<Cell>, elapsed: int, choices: seq<Choice>, characterSet: string)
    returns (output: string, complete: bool)
    requires |choices| == |cells|
    ensures output == Shown(cells, elapsed, choices, characterSet)
    ensures complete <==> Settled(cells, elapsed)
  {
    output := "";
    complete := true;
    for i := 0 to |cells|
      invariant output == Shown(cells[..i], elapsed, choices[..i], characterSet)
      invariant complete <==> Settled(cells[..i], elapsed)
    {
      var c := cells[i];
      var piece: string;
      if elapsed as real > c.end {
        piece := c.to;
      } else if elapsed > c.start {
        complete := false;
        if c.to == " " && c.from == " " {
          piece := " ";
        } else {
          match choices[i] {
            case KeepTarget =>
              piece := c.to;
            case Glyph(charIndex) =>
              piece := if 0 <= charIndex < |characterSet| then [characterSet[charIndex]] else "undefined";
          }
        }
      } else {
        complete := false;
        piece := c.from;
      }
      assert piece == CellText(c, elapsed, choices[i], characterSet);
      ShownStep(cells, elapsed, choices, characterSet, i);
      SettledStep(cells, elapsed, i);
      output := output + piece;
    }
    assert cells[..|cells|] == cells;
    assert choices[..|cells|] == choices;
  }

  lemma ShownStep(cells: seq<Cell>, elapsed: int, choices: seq<Choice>, characterSet: string, i: nat)
    requires |choices| == |cells| && i < |cells|
    ensures Shown(cells[..i + 1], elapsed, choices[..i + 1], characterSet)
      == Shown(cells[..i], elapsed, choices[..i], characterSet) + CellText(cells[i], elapsed, choices[i], characterSet)
  {
    assert cells[..i + 1][..i] == cells[..i];
    assert choices[..i + 1][..i] == choices[..i];
  }

  lemma SettledStep(cells: seq<Cell>, elapsed: int, i: nat)
    requires i < |cells|
    ensures Settled(cells[..i + 1], elapsed) <==> Settled(cells[..i], elapsed) && elapsed as real > cells[i].end
  {
    assert cells[..i + 1][i] == cells[i];
    if Settled(cells[..i], elapsed) && elapsed as real > cells[i].end {
      var t := cells[..i + 1];
      forall j | 0 <= j < |t|
        ensures elapsed as real > t[j].end
      {
        if j < i {
          assert t[j] == cells[..i][j];
        }
      }
    }
  }

  /** Once every window has closed, the frame shows exactly the targets. */
  lemma {:induction false} SettledShowsTargets(cells: seq<Cell>, elapsed: int, choices: seq<Choice>, characterSet: string)
    requires |choices| == |cells| && Settled(cells, elapsed)
    ensures Shown(cells, elapsed, choices, characterSet) == Targets(cells)
  {
    if cells != [] {
      var n := |cells| - 1;
      assert Settled(cells[..n], elapsed);
      SettledShowsTargets(cells[..n], elapsed, choices[..n], characterSet);
    }
  }

  /** Before any window has opened, the frame shows exactly the sources. */
  lemma {:induction false} UnstartedShowsSources(cells: seq<Cell>, elapsed: int, choices: seq<Choice>, characterSet: string)
    requires |choices| == |cells|
    requires forall i :: 0 <= i < |cells| ==> elapsed <= cells[i].start && cells[i].start as real <= cells[i].end
    ensures Shown(cells, elapsed, choices, characterSet) == Sources(cells)
  {
    if cells != [] {
      var n := |cells| - 1;
      UnstartedShowsSources(cells[..n], elapsed, choices[..n], characterSet);
    }
  }

  /** The frame that completes a transition already shows the new text, so pinning the
      display to the text changes nothing visible. */
  lemma CompletedFrameShowsText(previous: string, text: string, draws: seq<Draw>, speed: nat, factor: nat,
                                elapsed: int, choices: seq<Choice>, characterSet: string)
    requires |draws| == Max(|previous|, |text|) && |choices| == |draws|
    requires Settled(Table(previous, text, draws, speed, factor), elapsed)
    ensures Shown(Table(previous, text, draws, speed, factor), elapsed, choices, characterSet) == text
  {
    TableLinesUp(previous, text, draws, speed, factor);
    SettledShowsTargets(Table(previous, text, draws, speed, factor), elapsed, choices, characterSet);
  }

  /** A frame at the start of the transition still shows the previous text. */
  lemma FirstFrameShowsPrevious(previous: string, text: string, draws: seq<Draw>, speed: nat, factor: nat,
                                elapsed: int, choices: seq<Choice>, characterSet: string)
    requires |draws| == Max(|previous|, |text|) && DrawsAllowed(draws, factor) && |choices| == |draws|
    requires elapsed <= 0
    ensures Shown(Table(previous, text, draws, speed, factor), elapsed, choices, characterSet) == previous
  {
    var cells := Table(previous, text, draws, speed, factor);
    forall i | 0 <= i < |cells|
      ensures elapsed <= cells[i].start && cells[i].start as real <= cells[i].end
    {
      TableTiming(previous, text, draws, speed, factor, i);
      assert 0 <= draws[i].slot * speed;
    }
    TableLinesUp(previous, text, draws, speed, factor);
    UnstartedShowsSources(cells, elapsed, choices, characterSet);
  }

  /** `now - (timeStartRef.current || now)`: a start time of 0 reads as unset. */
  function Elapsed(now: int, timeStart: int): int {
    now - (if timeStart == 0 then now else timeStart)
  }

  // ------------------------------------------------------------------------------------
  // The component
  // ------------------------------------------------------------------------------------

  /** The component's state: the displayed text and its refs, together with the host's
      animation frames. Frame ids come from `nextFrame`; `pending` holds the ids that are
      scheduled and neither run nor cancelled yet; `frameRef` 0 stands for `null`. */
  class Scrambler {
    var displayText: string
    var previousText: string
    var frameRef: nat
    var timeStart: int
    var cells: seq<Cell>
    /** The props the latest transition captured. */
    var props: Props
    /** The host's scheduled frames. */
    var pending: set<nat>
    var nextFrame: nat
    /** The previous text and the draws the table was built from. */
    ghost var origin: string
    ghost var draws: seq<Draw>

    ghost predicate Valid()
      reads this
    {
      0 < nextFrame && 0 !in pending && pending <= {frameRef} && frameRef < nextFrame
      && |draws| == Max(|origin|, |props.text|) && DrawsAllowed(draws, props.scrambleFactor)
      && cells == Table(origin, props.text, draws, props.scrambleSpeed, props.scrambleFactor)
      && (pending != {} ==> previousText == origin)
    }

    /** Startup and cleanup keep at most one frame scheduled. */
    lemma AtMostOneFramePending()
      requires Valid()
      ensures |pending| <= 1
      ensures pending != {} ==> pending == {frameRef}
    {
      if pending != {} {
        var id :| id in pending;
        assert pending == {id};
      }
    }

    /** Every transition the component runs settles: a frame at least `Deadline` ms after
        the start finds every window of the current table closed. */
    lemma SettlesByDeadline(now: int)
      requires Valid()
      requires Elapsed(now, timeStart) >= Deadline(|cells|, props.scrambleSpeed, props.scrambleFactor)
      ensures Settled(cells, Elapsed(now, timeStart))
    {
      SettledByDeadline(origin, props.text, draws, props.scrambleSpeed, props.scrambleFactor, Elapsed(now, timeStart));
    }

    /** Mounting: the state before the first run of the effect. The initial props are
        captured with an empty text; the mount's first effect run is `Start(initial, ...)`,
        which then records the text. */
    constructor (initial: Props)
      ensures Valid()
      ensures displayText == "" && previousText == "" && frameRef == 0 && timeStart == 0
      ensures cells == [] && pending == {} && props == initial.(text := "")
    {
      displayText := "";
      previousText := "";
      frameRef := 0;
      timeStart := 0;
      cells := [];
      props := initial.(text := "");
      pending := {};
      nextFrame := 1;
      origin := "";
      draws := [];
    }

    /** The body of the effect. An empty text only clears the display. Otherwise the
        pending frame is cancelled, the table is built from the previous text, the start
        time is recorded and the first frame is scheduled. */
    method Start(p: Props, now: int, rolls: seq<Draw>)
      requires Valid()
      requires p.text != [] ==> |rolls| == Max(|previousText|, |p.text|) && DrawsAllowed(rolls, p.scrambleFactor)
      modifies this
      ensures Valid()
      ensures previousText == old(previousText)
      ensures p.text == [] ==>
        displayText == "" && cells == old(cells) && props == old(props) && timeStart == old(timeStart)
        && frameRef == old(frameRef) && pending == old(pending) && nextFrame == old(nextFrame)
      ensures p.text != [] ==>
        cells == Table(old(previousText), p.text, rolls, p.scrambleSpeed, p.scrambleFactor)
        && props == p && timeStart == now && displayText == old(displayText)
        && frameRef == old(nextFrame) && pending == {frameRef} && nextFrame == old(nextFrame) + 1
    {
      if |p.text| == 0 {
        displayText := "";
        return;
      }
      if frameRef != 0 {
        pending := pending - {frameRef};
      }
      assert pending == {};
      var table := BuildCells(previousText, p.text, rolls, p.scrambleSpeed, p.scrambleFactor);
      cells := table;
      origin := previousText;
      draws := rolls;
      props := p;
      timeStart := now;
      frameRef := nextFrame;
      pending := {nextFrame};
      nextFrame := nextFrame + 1;
    }

    /** The host running the scheduled frame: `update`. The frame's output becomes the
        display; if some window is still open the next frame is scheduled, and otherwise
        the display is pinned to the text, which becomes the previous text. */
    method Frame(now: int, choices: seq<Choice>)
      requires Valid() && frameRef in pending
      requires |choices| == |cells| && ChoicesAllowed(choices, props.characterSet)
      modifies this
      ensures Valid()
      ensures cells == old(cells) && props == old(props) && timeStart == old(timeStart)
      ensures var elapsed := Elapsed(now, timeStart);
        if Settled(cells, elapsed) then
          displayText == props.text && previousText == props.text
          && pending == {} && frameRef == old(frameRef) && nextFrame == old(nextFrame)
        else
          displayText == Shown(cells, elapsed, choices, props.characterSet)
          && previousText == old(previousText)
          && frameRef == old(nextFrame) && pending == {frameRef} && nextFrame == old(nextFrame) + 1
    {
      pending := pending - {frameRef};
      var elapsed := Elapsed(now, timeStart);
      var output, complete := Render(cells, elapsed, choices, props.characterSet);
      displayText := output;
      if !complete {
        frameRef := nextFrame;
        pending := {nextFrame};
        nextFrame := nextFrame + 1;
      } else {
        displayText := props.text;
        previousText := props.text;
      }
    }

    /** The cleanup the effect returns: the pending frame is cancelled. */
    method Cleanup()
      requires Valid()
      modifies this
      ensures Valid()
      ensures pending == {}
      ensures displayText == old(displayText) && previousText == old(previousText)
      ensures frameRef == old(frameRef) && cells == old(cells) && props == old(props)
      ensures timeStart == old(timeStart) && nextFrame == old(nextFrame)
    {
      if frameRef != 0 {
        pending := pending - {frameRef};
      }
    }

    /** A change of props: the previous run's cleanup, then the effect again. A transition
        interrupted this way starts from the last completed text, not from what was on
        the display. */
    method Retarget(p: Props, now: int, rolls: seq<Draw>)
      requires Valid()
      requires p.text != [] ==> |rolls| == Max(|previousText|, |p.text|) && DrawsAllowed(rolls, p.scrambleFactor)
      modifies this
      ensures Valid()
      ensures previousText == old(previousText)
      ensures p.text == [] ==>
        displayText == "" && pending == {} && cells == old(cells) && props == old(props)
        && timeStart == old(timeStart) && frameRef == old(frameRef) && nextFrame == old(nextFrame)
      ensures p.text != [] ==>
        cells == Table(old(previousText), p.text, rolls, p.scrambleSpeed, p.scrambleFactor)
        && props == p && timeStart == now && displayText == old(displayText)
        && pending == {frameRef} && frameRef !in old(pending)
        && frameRef == old(nextFrame) && nextFrame == old(nextFrame) + 1
    {
      Cleanup();
      Start(p, now, rolls);
    }
  }
}
