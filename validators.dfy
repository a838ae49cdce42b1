/** The checks the console loop runs on what the player types before anything
    reaches the field, and the conversion of a checked step into a cell. Tokens are
    ASCII strings split on white space. */
module Validators {

  predicate IsDigit(c: char) {
    '0' <= c <= '9'
  }

  predicate IsLetter(c: char) {
    'A' <= c <= 'Z' || 'a' <= c <= 'z'
  }

  /** `str.isnumeric`: non-empty and all digits. */
  predicate IsNumeric(s: string) {
    |s| > 0 && forall k :: 0 <= k < |s| ==> IsDigit(s[k])
  }

  /** `str.isalpha`: non-empty and all letters. */
  predicate IsAlpha(s: string) {
    |s| > 0 && forall k :: 0 <= k < |s| ==> IsLetter(s[k])
  }

  /** `int(s)` of a string of digits. */
  function NumberValue(s: string): nat
    requires forall k :: 0 <= k < |s| ==> IsDigit(s[k])
  {
    if s == [] then 0
    else
      assert IsDigit(s[|s| - 1]);
      10 * NumberValue(s[..|s| - 1]) + (s[|s| - 1] as int - '0' as int)
  }

  function UpperChar(c: char): char {
    if 'a' <= c <= 'z' then (c as int - 32) as char else c
  }

  function LowerChar(c: char): char {
    if 'A' <= c <= 'Z' then (c as int + 32) as char else c
  }

  function Lower(s: string): string {
    seq(|s|, k requires 0 <= k < |s| => LowerChar(s[k]))
  }

  /** Column index of a letter token, case-insensitive: `ord(y.upper()) - ord('A')`. */
  function LetterIndex(letter: string): int
    requires |letter| == 1
  {
    UpperChar(letter[0]) as int - 'A' as int
  }

  /** `check_sizes`: two numeric tokens, each between 3 and 26. */
  function CheckSizes(sizes: seq<string>): (ok: bool)
    ensures ok ==> |sizes| == 2 && IsNumeric(sizes[0]) && IsNumeric(sizes[1])
    ensures ok <==> (|sizes| == 2 &&
      forall k :: 0 <= k < 2 ==> IsNumeric(sizes[k]) && 3 <= NumberValue(sizes[k]) <= 26)
  {
    if |sizes| != 2 then false
    else if !(IsNumeric(sizes[0]) && IsNumeric(sizes[1])) then false
    else
      var sizeX, sizeY := NumberValue(sizes[0]), NumberValue(sizes[1]);
      3 <= sizeX <= 26 && 3 <= sizeY <= 26
  }

  /** `check_mines`: a numeric token of at least 2 mines and at most a third of the cells. */
  function CheckMines(mines: string, sizeX: int, sizeY: int): (ok: bool)
    ensures ok <==> IsNumeric(mines) && 2 <= NumberValue(mines) && 3 * NumberValue(mines) <= sizeX * sizeY
  {
    if !IsNumeric(mines) then false
    else
      var m := NumberValue(mines);
      2 <= m <= sizeX * sizeY / 3
  }

  /** Sizes and a mine count both accepted leave at least one cell free of mines, so
      random placement with retries always has somewhere to put the next mine. */
  lemma ValidatedGameHasRoom(sizes: seq<string>, mines: string)
    requires CheckSizes(sizes)
    requires CheckMines(mines, NumberValue(sizes[0]), NumberValue(sizes[1]))
    ensures 9 <= NumberValue(sizes[0]) * NumberValue(sizes[1]) <= 676
    ensures 2 <= NumberValue(mines) < NumberValue(sizes[0]) * NumberValue(sizes[1])
  {
    var x, y := NumberValue(sizes[0]), NumberValue(sizes[1]);
    ProductBounds(x, y);
  }

  lemma ProductBounds(x: int, y: int)
    requires 3 <= x <= 26 && 3 <= y <= 26
    ensures 9 <= x * y <= 676
  {
    assert 3 * y <= x * y <= 26 * y;
  }

  /** The number token and the letter token name a cell of a sizeX x sizeY field. */
  predicate CoordsInRange(number: string, letter: string, sizeX: int, sizeY: int) {
    IsNumeric(number) && IsAlpha(letter) && |letter| == 1 &&
    1 <= NumberValue(number) <= sizeX && LetterIndex(letter) < sizeY
  }

  predicate IsAction(action: string) {
    Lower(action) == "open" || Lower(action) == "flag"
  }

  /** `check_step`: three tokens, a number and a single letter in either order naming a
      cell of the field, then `open` or `flag` in any case. */
  function CheckStep(step: seq<string>, sizeX: int, sizeY: int): (ok: bool)
    ensures ok <==> (|step| == 3 && IsAction(step[2]) &&
      (CoordsInRange(step[0], step[1], sizeX, sizeY) || CoordsInRange(step[1], step[0], sizeX, sizeY)))
  {
    if |step| != 3 then false
    else
      var first, second, action := step[0], step[1], step[2];
      if IsAlpha(first) && IsNumeric(second) then
        Accepts(NumberValue(second), first, action, sizeX, sizeY)
      else if IsNumeric(first) && IsAlpha(second) then
        Accepts(NumberValue(first), second, action, sizeX, sizeY)
      else false
  }

  /** The tail of check_step once the number x and the letter token y are known. */
  function Accepts(x: int, y: string, action: string, sizeX: int, sizeY: int): bool {
    if |y| != 1 then false
    else if !('A' as int <= UpperChar(y[0]) as int < 'A' as int + sizeY && 1 <= x <= sizeX) then false
    else IsAction(action)
  }

  datatype Action = OpenCell | PutFlag

  /** A step converted to the 0-based cell it names and what to do there. */
  datatype Step = Step(row: int, col: int, action: Action)

  /** The conversion the console loop applies to a step check_step accepted: the number
      less one is the row, the letter's place in the alphabet the column. */
  function ToStep(step: seq<string>, sizeX: int, sizeY: int): (r: Step)
    requires CheckStep(step, sizeX, sizeY)
    ensures 0 <= r.row < sizeX && 0 <= r.col < sizeY
    ensures r.action == OpenCell <==> Lower(step[2]) == "open"
    ensures r.action == PutFlag <==> Lower(step[2]) == "flag"
  {
    var first, second := step[0], step[1];
    var swapped := IsAlpha(first) && IsNumeric(second);
    var number := if swapped then second else first;
    var letter := if swapped then first else second;
    var action := if Lower(step[2]) == "open" then OpenCell else PutFlag;
    Step(NumberValue(number) - 1, LetterIndex(letter), action)
  }
}
