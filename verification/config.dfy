/** The game-configuration rules of the debug console in `backend/src/main.rs`: the
    checks each answer must pass before a board is created. Each question is asked
    again until an answer passes; the answers arrive as a sequence, already trimmed
    for the name and mode questions and already parsed as `i64` for the numeric ones. */
module GameConfig {

  import opened Fallible
  import opened Grid
  import opened BoardModel

  /** Why an answer is refused; one per message the console prints. */
  datatype Refusal =
    | ReservedName   // "You cannot use that name."
    | WrongLength    // "Input must contain exactly four characters."
    | NotTOrO        // "Your input must contain either the characters T or O."
    | NotSymmetric   // "The gamemode must be symmetric."
    | NotANumber     // "Your input is invalid."
    | TooSmall       // "The difficulty must be at least 0." and the width/height messages

  datatype Checked<+T> = Accepted(value: T) | Refused(why: Refusal)

  /** The player name that stands for the computer as player 2. */
  const Computer: string := "*"

  /** The names no human may take. */
  predicate IsReservedName(name: string) {
    name == "*" || name == "**"
  }

  /** Player 1: any name but a reserved one; the empty name makes player 1 the computer. */
  function CheckPlayer1(name: string): (r: Checked<string>)
    ensures r.Accepted? <==> !IsReservedName(name)
    ensures r.Accepted? ==> r.value == name
    ensures r.Refused? ==> r.why == ReservedName
  {
    if IsReservedName(name) then Refused(ReservedName) else Accepted(name)
  }

  /** Player 2: any name but a reserved one, which is then replaced by the computer's
      name when player 1 is the computer. The reserved-name test comes first, so even
      then `*` and `**` are refused. */
  function CheckPlayer2(player1: string, name: string): (r: Checked<string>)
    ensures r.Accepted? <==> !IsReservedName(name)
    ensures r.Accepted? ==> r.value == (if player1 == "" then Computer else name)
    ensures r.Refused? ==> r.why == ReservedName
  {
    if IsReservedName(name) then Refused(ReservedName)
    else if player1 == "" then Accepted(Computer)
    else Accepted(name)
  }

  /** After both name questions, player 2 is the computer's name exactly when player 1
      is the computer, and neither player holds `**`. */
  lemma ComputerNameMarksComputerGame(name1: string, name2: string)
    requires CheckPlayer1(name1).Accepted?
    requires CheckPlayer2(CheckPlayer1(name1).value, name2).Accepted?
    ensures var p1 := CheckPlayer1(name1).value;
      var p2 := CheckPlayer2(p1, name2).value;
      && (p2 == Computer <==> p1 == "")
      && !IsReservedName(p1) && p2 != "**"
  {
  }

  /** Bytes of `c` in UTF-8: `String::len` counts these, not characters. */
  function Utf8Width(c: char): (n: nat)
    ensures 1 <= n <= 4
    ensures n == 1 <==> (c as int) < 0x80
  {
    if (c as int) < 0x80 then 1
    else if (c as int) < 0x800 then 2
    else if (c as int) < 0x1_0000 then 3
    else 4
  }

  /** `s.len()` for a Rust string: its length in UTF-8 bytes. */
  function Utf8Len(s: string): (n: nat)
    ensures n >= |s|
    ensures n == |s| <==> forall i | 0 <= i < |s| :: (s[i] as int) < 0x80
    decreases |s|
  {
    if |s| == 0 then 0
    else
      var rest := Utf8Len(s[1..]);
      assert forall i | 1 <= i < |s| :: s[i] == s[1..][i - 1];
      Utf8Width(s[0]) + rest
  }

  /** A letter allowed in a mode. */
  predicate IsModeLetter(c: char) {
    c == 'T' || c == 'O'
  }

  /** The source's translation of one mode letter: `'T'` to false, `'O'` to true,
      anything else to false. */
  function ModeBit(c: char): (bit: bool) {
    match c
    case 'T' => false
    case 'O' => true
    case _ => false
  }

  /** `m` reads the same backwards. */
  ghost predicate IsPalindrome(m: seq<bool>) {
    forall i | 0 <= i < |m| :: m[i] == m[|m| - 1 - i]
  }

  /** The mode question: refused unless 4 bytes long, then unless every character is
      `T` or `O`, then unless symmetric; an accepted mode is translated letter by letter. */
  function ParseMode(s: string): (r: Checked<seq<bool>>)
    ensures r == Refused(WrongLength) <==> Utf8Len(s) != 4
    ensures r == Refused(NotTOrO) <==> Utf8Len(s) == 4 && exists i | 0 <= i < |s| :: !IsModeLetter(s[i])
    ensures r == Refused(NotSymmetric) <==>
      |s| == 4 && (forall i | 0 <= i < 4 :: IsModeLetter(s[i])) && !(s[0] == s[3] && s[1] == s[2])
    ensures r.Accepted? <==>
      |s| == 4 && (forall i | 0 <= i < 4 :: IsModeLetter(s[i])) && s[0] == s[3] && s[1] == s[2]
    ensures r.Accepted? ==>
      && |r.value| == 4
      && IsPalindrome(r.value)
      && forall i | 0 <= i < 4 :: r.value[i] == (s[i] == 'O')
  {
    if Utf8Len(s) != 4 then Refused(WrongLength)
    else if !(forall i | 0 <= i < |s| :: IsModeLetter(s[i])) then Refused(NotTOrO)
    else
      assert |s| == 4;
      if !(s[0] == s[3] && s[1] == s[2]) then Refused(NotSymmetric)
      else Accepted(seq(|s|, i requires 0 <= i < |s| => ModeBit(s[i])))
  }

  /** A mode written back as letters: false as `T`, true as `O`. */
  function RenderMode(m: seq<bool>): (s: string)
    ensures |s| == |m|
    ensures forall i | 0 <= i < |m| :: s[i] == if m[i] then 'O' else 'T'
  {
    seq(|m|, i requires 0 <= i < |m| => if m[i] then 'O' else 'T')
  }

  /** Exactly the symmetric four-letter modes are accepted back from their letters,
      and they translate to themselves. */
  lemma ParseRenderedMode(m: seq<bool>)
    ensures ParseMode(RenderMode(m)).Accepted? <==> |m| == 4 && IsPalindrome(m)
    ensures ParseMode(RenderMode(m)).Accepted? ==> ParseMode(RenderMode(m)).value == m
  {
    var s := RenderMode(m);
    if |m| == 4 && IsPalindrome(m) {
      assert m[0] == m[3] && m[1] == m[2];
      assert Utf8Len(s) == 4;
    }
    if ParseMode(s).Accepted? {
      assert m == ParseMode(s).value;
    }
  }

  /** An accepted mode, written back as letters, gives the answer that was typed. */
  lemma RenderParsedMode(s: string)
    requires ParseMode(s).Accepted?
    ensures RenderMode(ParseMode(s).value) == s
  {
  }

  /** The numeric questions: a parse failure or a value below `least` is refused. */
  function CheckAtLeast(parsed: Option<int>, least: int): (r: Checked<int>)
    ensures r.Accepted? <==> parsed.Some? && parsed.value >= least
    ensures r.Accepted? ==> r.value == parsed.value
    ensures r == Refused(NotANumber) <==> parsed.None?
    ensures r == Refused(TooSmall) <==> parsed.Some? && parsed.value < least
  {
    match parsed
    case None => Refused(NotANumber)
    case Some(n) => if n < least then Refused(TooSmall) else Accepted(n)
  }

  /** The difficulty: a number that is at least 0. */
  function CheckDifficulty(parsed: Option<int>): (r: Checked<int>)
    ensures r.Accepted? <==> parsed.Some? && parsed.value >= 0
    ensures r.Accepted? ==> r.value == parsed.value
  {
    CheckAtLeast(parsed, 0)
  }

  /** The board width and the board height, which the console checks alike: a
      number that is at least 1. */
  function CheckDimension(parsed: Option<int>): (r: Checked<int>)
    ensures r.Accepted? <==> parsed.Some? && parsed.value >= 1
    ensures r.Accepted? ==> r.value == parsed.value
  {
    CheckAtLeast(parsed, 1)
  }

  /** One question asked until an answer passes `check`: the position of the first
      accepted answer and its value, or `None` when every answer given is refused
      (the console would still be asking). */
  function Ask<A, T>(answers: seq<A>, check: A -> Checked<T>): (r: Option<(nat, T)>)
    ensures r.Some? ==>
      && r.value.0 < |answers|
      && check(answers[r.value.0]) == Accepted(r.value.1)
      && forall j | 0 <= j < r.value.0 :: check(answers[j]).Refused?
    ensures r.None? ==> forall j | 0 <= j < |answers| :: check(answers[j]).Refused?
    decreases |answers|
  {
    if |answers| == 0 then None
    else match check(answers[0])
      case Accepted(v) => Some((0, v))
      case Refused(_) =>
        match Ask(answers[1..], check)
        case None => None
        case Some(found) => Some((found.0 + 1, found.1))
  }

  /** The settings the console hands to the board. */
  datatype Settings = Settings(
    player1: string,
    player2: string,
    mode: seq<bool>,
    difficulty: int,
    width: int,
    height: int)

  /** The console session: the six questions in the source's order, each asked until
      an answer passes; `None` when some question never receives an accepted answer. */
  function Configure(
    names1: seq<string>, names2: seq<string>, modes: seq<string>,
    difficulties: seq<Option<int>>, widths: seq<Option<int>>, heights: seq<Option<int>>): (cfg: Option<Settings>)
  {
    match Ask(names1, CheckPlayer1)
    case None => None
    case Some(a1) =>
      var player1 := a1.1;
      match Ask(names2, name => CheckPlayer2(player1, name))
      case None => None
      case Some(a2) =>
        match (Ask(modes, ParseMode), Ask(difficulties, CheckDifficulty), Ask(widths, CheckDimension), Ask(heights, CheckDimension))
        case (Some(m), Some(d), Some(w), Some(h)) => Some(Settings(player1, a2.1, m.1, d.1, w.1, h.1))
        case _ => None
  }

  /** Settings that come out of a session satisfy every rule, and a board of their size
      is well formed. */
  lemma ConfiguredSettingsAreValid(
    names1: seq<string>, names2: seq<string>, modes: seq<string>,
    difficulties: seq<Option<int>>, widths: seq<Option<int>>, heights: seq<Option<int>>)
    requires Configure(names1, names2, modes, difficulties, widths, heights).Some?
    ensures var cfg := Configure(names1, names2, modes, difficulties, widths, heights).value;
      && !IsReservedName(cfg.player1) && cfg.player2 != "**"
      && (cfg.player2 == Computer <==> cfg.player1 == "")
      && |cfg.mode| == 4 && IsPalindrome(cfg.mode)
      && cfg.difficulty >= 0 && cfg.width >= 1 && cfg.height >= 1
      && WellFormed(EmptyBoard(cfg.width, cfg.height, ' '))
  {
    var cfg := Configure(names1, names2, modes, difficulties, widths, heights).value;
    var a1 := Ask(names1, CheckPlayer1).value;
    var a2 := Ask(names2, name => CheckPlayer2(a1.1, name)).value;
    assert CheckPlayer2(a1.1, names2[a2.0]) == Accepted(cfg.player2);
  }
}
