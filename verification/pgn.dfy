/**
 Reading a game record: splitting the exported game into lines, finding the
 movetext line, and turning the movetext into the list of moves played.
 */
module Pgn {

  // ---------------------------------------------------------------------
  // Splitting on a delimiter

  /** The index of the first `d` in `s`, or `|s|` when there is none. */
  function FirstIndexOf(s: string, d: char): (k: nat)
    ensures k <= |s|
    ensures k < |s| ==> s[k] == d
    ensures forall i :: 0 <= i < k ==> s[i] != d
  {
    if |s| == 0 || s[0] == d then 0 else 1 + FirstIndexOf(s[1..], d)
  }

  /**
   The items `std::getline` extracts from `s` with delimiter `d`: the pieces
   between delimiters, where a delimiter at the very end does not start
   another (empty) item and an empty string yields no item at all.
   */
  function Split(s: string, d: char): (r: seq<string>)
    ensures |r| == 0 <==> |s| == 0
    decreases |s|
  {
    if |s| == 0 then []
    else
      var k := FirstIndexOf(s, d);
      if k == |s| then [s] else [s[..k]] + Split(s[k + 1..], d)
  }

  /** No item of a split contains the delimiter. */
  lemma {:induction false} SplitItemsFree(s: string, d: char)
    ensures forall i :: 0 <= i < |Split(s, d)| ==> d !in Split(s, d)[i]
    decreases |s|
  {
    if |s| > 0 {
      var k := FirstIndexOf(s, d);
      if k < |s| {
        SplitItemsFree(s[k + 1..], d);
        assert Split(s, d) == [s[..k]] + Split(s[k + 1..], d);
      }
    }
  }

  /** Every item followed by the delimiter: the text `Split` reads back. */
  function Terminated(items: seq<string>, d: char): (s: string)
    ensures |items| > 0 ==> |s| > 0 && s[|s| - 1] == d
  {
    if |items| == 0 then [] else items[0] + [d] + Terminated(items[1..], d)
  }

  /** `s` ending in the delimiter: unchanged if empty or already so, else with one appended. */
  function WithFinalDelimiter(s: string, d: char): (r: string)
    ensures |s| > 0 ==> |r| > 0 && r[|r| - 1] == d
  {
    if |s| == 0 || s[|s| - 1] == d then s else s + [d]
  }

  /**
   Splitting loses only the final delimiter: putting a delimiter after every
   item gives the text back, with a delimiter added if it did not end in one.
   */
  lemma {:induction false} SplitThenTerminate(s: string, d: char)
    ensures Terminated(Split(s, d), d) == WithFinalDelimiter(s, d)
    decreases |s|
  {
    if |s| == 0 {
      assert Split(s, d) == [];
    } else if FirstIndexOf(s, d) < |s| {
      SplitThenTerminate(s[FirstIndexOf(s, d) + 1..], d);
      SplitFirstLine(s, d);
    } else {
      SplitLastLine(s, d);
    }
  }

  /**
   The step for text with a delimiter: if the text after the first
   delimiter rebuilds, so does the whole text.
   */
  lemma SplitFirstLine(s: string, d: char)
    requires FirstIndexOf(s, d) < |s|
    requires Terminated(Split(s[FirstIndexOf(s, d) + 1..], d), d) == WithFinalDelimiter(s[FirstIndexOf(s, d) + 1..], d)
    ensures Terminated(Split(s, d), d) == WithFinalDelimiter(s, d)
  {
    var k := FirstIndexOf(s, d);
    SplitStep(s, d);
    CutAt(s, k, d);
    ReattachLine(s, s[..k], s[k + 1..], Terminated(Split(s[k + 1..], d), d), d);
  }

  /** Non-empty text without a delimiter is one item, rebuilt with a delimiter added. */
  lemma SplitLastLine(s: string, d: char)
    requires |s| > 0 && FirstIndexOf(s, d) == |s|
    ensures Terminated(Split(s, d), d) == WithFinalDelimiter(s, d)
  {
    assert Split(s, d) == [s];
    assert Terminated([s], d) == s + [d] + Terminated([], d);
  }

  /** Terminating a list that starts with `x` writes `x` and a delimiter first. */
  lemma TerminatedCons(x: string, rest: seq<string>, d: char)
    ensures Terminated([x] + rest, d) == x + [d] + Terminated(rest, d)
  {
    assert ([x] + rest)[1..] == rest;
  }

  /** A text with a delimiter splits into the line before it and the split of the rest. */
  lemma SplitAtFirst(s: string, d: char)
    requires FirstIndexOf(s, d) < |s|
    ensures var k := FirstIndexOf(s, d);
      Split(s, d) == [s[..k]] + Split(s[k + 1..], d)
  {
  }

  /** Splitting at the first delimiter, then terminating, peels off one line. */
  lemma SplitStep(s: string, d: char)
    requires FirstIndexOf(s, d) < |s|
    ensures var k := FirstIndexOf(s, d);
      Terminated(Split(s, d), d) == s[..k] + [d] + Terminated(Split(s[k + 1..], d), d)
  {
    var k := FirstIndexOf(s, d);
    var line, rest := s[..k], Split(s[k + 1..], d);
    SplitAtFirst(s, d);
    TerminatedCons(line, rest, d);
  }

  /** Text cut around one of its delimiters. */
  lemma CutAt(s: string, k: nat, d: char)
    requires k < |s| && s[k] == d
    ensures s == s[..k] + [d] + s[k + 1..]
  {
    assert s == s[..k] + s[k..];
    assert s[k..] == [d] + s[k + 1..];
  }

  /** Putting a line back in front of the rebuilt remainder rebuilds the whole text. */
  lemma ReattachLine(s: string, line: string, rest: string, tail: string, d: char)
    requires s == line + [d] + rest
    requires tail == WithFinalDelimiter(rest, d)
    ensures line + [d] + tail == WithFinalDelimiter(s, d)
  {
    if |rest| > 0 {
      assert s[|s| - 1] == rest[|rest| - 1];
    }
  }

  /** Items free of the delimiter come back unchanged from their terminated text. */
  lemma {:induction false} TerminateThenSplit(items: seq<string>, d: char)
    requires forall i :: 0 <= i < |items| ==> d !in items[i]
    ensures Split(Terminated(items, d), d) == items
    decreases |items|
  {
    if |items| > 0 {
      var s := Terminated(items, d);
      var rest := Terminated(items[1..], d);
      assert s == items[0] + [d] + rest;
      FirstIndexIsItemEnd(items[0], d, rest);
      assert s[|items[0]| + 1..] == rest;
      assert s[..|items[0]|] == items[0];
      TerminateThenSplit(items[1..], d);
    }
  }

  /** In `item + [d] + rest` with `d` not in `item`, the first `d` ends the item. */
  lemma FirstIndexIsItemEnd(item: string, d: char, rest: string)
    requires d !in item
    ensures FirstIndexOf(item + [d] + rest, d) == |item|
  {
    var s := item + [d] + rest;
    assert s[|item|] == d;
    forall i | 0 <= i < |item|
      ensures s[i] != d
    {
      assert s[i] == item[i];
    }
  }

  // ---------------------------------------------------------------------
  // Finding the movetext line

  /**
   `line[i]` as `std::string` reads it: the terminating null character at
   index `|line|`.
   */
  function CharAt(line: string, i: nat): (c: char)
    requires i <= |line|
    ensures i == |line| ==> c == '\0'
    ensures i < |line| ==> c == line[i]
  {
    if i < |line| then line[i] else '\0'
  }

  /**
   The movetext test, read left to right and stopping at the first mismatch,
   so that no character past the terminator is read.
   */
  predicate IsMovetextLine(line: string) {
    CharAt(line, 0) == '1' && CharAt(line, 1) == '.' && CharAt(line, 2) == ' '
  }

  /** The test holds exactly for lines starting with `1. `; shorter lines never match. */
  lemma MovetextLineIsPrefix(line: string)
    ensures IsMovetextLine(line) <==> |line| >= 3 && line[..3] == "1. "
  {
    if |line| >= 3 && line[..3] == "1. " {
      assert line[0] == '1' && line[1] == '.' && line[2] == ' ';
    }
  }

  /** Some line of `lines` starts the movetext. */
  predicate HasMovetextLine(lines: seq<string>) {
    exists i :: 0 <= i < |lines| && IsMovetextLine(lines[i])
  }

  /**
   The first line of `game` that starts the movetext, or the empty string
   when no line does.
   */
  method GetPgn(game: string) returns (pgn: string)
    ensures pgn == "" <==> !HasMovetextLine(Split(game, '\n'))
    ensures pgn != "" ==> exists i :: 0 <= i < |Split(game, '\n')| && pgn == Split(game, '\n')[i]
                                      && forall j :: 0 <= j < i ==> !IsMovetextLine(Split(game, '\n')[j])
    ensures pgn != "" ==> IsMovetextLine(pgn) && '\n' !in pgn
  {
    var lines := Split(game, '\n');
    SplitItemsFree(game, '\n');
    var i := 0;
    while i < |lines|
      invariant 0 <= i <= |lines|
      invariant forall j :: 0 <= j < i ==> !IsMovetextLine(lines[j])
    {
      if CharAt(lines[i], 0) == '1' && CharAt(lines[i], 1) == '.' && CharAt(lines[i], 2) == ' ' {
        assert IsMovetextLine(lines[i]) && |lines[i]| > 0;
        return lines[i];
      }
      i := i + 1;
    }
    return "";
  }

  // ---------------------------------------------------------------------
  // Tokenising the movetext

  /** The characters `operator>>` skips around a token. */
  predicate IsSpace(c: char) {
    c == ' ' || c == '\t' || c == '\n' || c == '\U{000B}' || c == '\U{000C}' || c == '\r'
  }

  /** A token as `operator>>` extracts it: non-empty, with no white space. */
  predicate IsToken(t: string) {
    |t| > 0 && forall i :: 0 <= i < |t| ==> !IsSpace(t[i])
  }

  /** The length of the run of non-space characters that starts `s`. */
  function TokenEnd(s: string): (k: nat)
    ensures k <= |s|
    ensures forall i :: 0 <= i < k ==> !IsSpace(s[i])
    ensures k < |s| ==> IsSpace(s[k])
  {
    if |s| == 0 || IsSpace(s[0]) then 0 else 1 + TokenEnd(s[1..])
  }

  /** The tokens a string stream yields from `s`, in order. */
  function Tokens(s: string): (r: seq<string>)
    ensures forall i :: 0 <= i < |r| ==> IsToken(r[i])
    decreases |s|
  {
    if |s| == 0 then []
    else if IsSpace(s[0]) then Tokens(s[1..])
    else
      var k := TokenEnd(s);
      [s[..k]] + Tokens(s[k..])
  }

  /** Tokens written out, each followed by one space. */
  function Spaced(ts: seq<string>): string {
    if |ts| == 0 then [] else ts[0] + " " + Spaced(ts[1..])
  }

  /** Tokenising text made of tokens and single spaces gives the tokens back. */
  lemma {:induction false} TokensOfSpaced(ts: seq<string>)
    requires forall i :: 0 <= i < |ts| ==> IsToken(ts[i])
    ensures Tokens(Spaced(ts)) == ts
    decreases |ts|
  {
    if |ts| > 0 {
      var s := Spaced(ts);
      var rest := Spaced(ts[1..]);
      var t := ts[0];
      assert s == t + " " + rest;
      assert TokenEnd(s) == |t| by {
        assert s == t + (" " + rest);
        TokenEndOfToken(t, " " + rest);
      }
      assert s[..|t|] == t;
      assert s[|t|..] == " " + rest;
      assert Tokens(" " + rest) == Tokens(rest) by {
        assert (" " + rest)[1..] == rest;
      }
      TokensOfSpaced(ts[1..]);
    }
  }

  /** A token followed by white space ends exactly where the token does. */
  lemma {:induction false} TokenEndOfToken(t: string, rest: string)
    requires IsToken(t)
    requires |rest| > 0 && IsSpace(rest[0])
    ensures TokenEnd(t + rest) == |t|
  {
    var s := t + rest;
    assert s[|t|] == rest[0];
    forall i | 0 <= i < |t|
      ensures !IsSpace(s[i])
    {
      assert s[i] == t[i];
    }
  }

  // ---------------------------------------------------------------------
  // Extracting the moves

  /** A move number such as `1.` or `12...`: a token ending in a period. */
  predicate IsMoveNumber(t: string) {
    |t| > 0 && t[|t| - 1] == '.'
  }

  /** The game-termination markers: a win for either side, or a draw. */
  predicate IsResult(t: string) {
    t == "0-1" || t == "1-0" || t == "1/2-1/2"
  }

  /** The index of the first result marker among `ts`, or `|ts|`. */
  function ResultIndex(ts: seq<string>): (k: nat)
    ensures k <= |ts|
    ensures k < |ts| ==> IsResult(ts[k])
    ensures forall i :: 0 <= i < k ==> !IsResult(ts[i])
  {
    if |ts| == 0 || IsResult(ts[0]) then 0 else 1 + ResultIndex(ts[1..])
  }

  /** The tokens of `ts` that are not move numbers, in order. */
  function DropMoveNumbers(ts: seq<string>): (r: seq<string>)
    ensures |r| <= |ts|
    ensures forall i :: 0 <= i < |r| ==> r[i] in ts && !IsMoveNumber(r[i])
  {
    if |ts| == 0 then []
    else if IsMoveNumber(ts[0]) then DropMoveNumbers(ts[1..])
    else [ts[0]] + DropMoveNumbers(ts[1..])
  }

  /**
   The reference reading of a movetext: the tokens before the first result
   marker, move numbers left out.
   */
  function MovesOf(pgn: string): (r: seq<string>) {
    var ts := Tokens(pgn);
    DropMoveNumbers(ts[..ResultIndex(ts)])
  }

  /** Dropping move numbers distributes over appending one more token. */
  lemma {:induction false} DropMoveNumbersSnoc(ts: seq<string>, t: string)
    ensures DropMoveNumbers(ts + [t])
         == DropMoveNumbers(ts) + (if IsMoveNumber(t) then [] else [t])
    decreases |ts|
  {
    if |ts| > 0 {
      assert (ts + [t])[1..] == ts[1..] + [t];
      DropMoveNumbersSnoc(ts[1..], t);
    } else {
      assert ts + [t] == [t];
    }
  }

  /**
   Moves written out one after another, each followed by a space, read back
   as themselves, as long as none looks like a move number or a result.
   */
  lemma MovesRoundTrip(ms: seq<string>)
    requires forall i :: 0 <= i < |ms| ==> IsToken(ms[i]) && !IsMoveNumber(ms[i]) && !IsResult(ms[i])
    ensures MovesOf(Spaced(ms)) == ms
  {
    TokensOfSpaced(ms);
    NoResultIndex(ms);
    assert ms[..|ms|] == ms;
    KeepMoves(ms);
  }

  /** Without a result marker the scan runs to the end. */
  lemma NoResultIndex(ts: seq<string>)
    requires forall i :: 0 <= i < |ts| ==> !IsResult(ts[i])
    ensures ResultIndex(ts) == |ts|
  {
  }

  /** Without move numbers nothing is dropped. */
  lemma {:induction false} KeepMoves(ts: seq<string>)
    requires forall i :: 0 <= i < |ts| ==> !IsMoveNumber(ts[i])
    ensures DropMoveNumbers(ts) == ts
    decreases |ts|
  {
    if |ts| > 0 {
      KeepMoves(ts[1..]);
      assert ts == [ts[0]] + ts[1..];
    }
  }

  /** One more token read: it is kept unless it is a move number. */
  lemma ParseStep(tokens: seq<string>, i: nat)
    requires i < |tokens|
    ensures DropMoveNumbers(tokens[..i + 1])
         == DropMoveNumbers(tokens[..i]) + (if IsMoveNumber(tokens[i]) then [] else [tokens[i]])
  {
    assert tokens[..i + 1] == tokens[..i] + [tokens[i]];
    DropMoveNumbersSnoc(tokens[..i], tokens[i]);
  }

  /** A token that is not a result marker cannot be the first one. */
  lemma PastResultIndex(tokens: seq<string>, i: nat)
    requires i < |tokens| && i <= ResultIndex(tokens) && !IsResult(tokens[i])
    ensures i + 1 <= ResultIndex(tokens)
  {
  }

  /** The moves kept from tokens before the first result marker are tokens, none a result. */
  lemma KeptAreTokens(tokens: seq<string>, i: nat)
    requires i <= ResultIndex(tokens)
    ensures forall k :: 0 <= k < |DropMoveNumbers(tokens[..i])| ==>
      DropMoveNumbers(tokens[..i])[k] in tokens && !IsResult(DropMoveNumbers(tokens[..i])[k])
  {
    var kept := DropMoveNumbers(tokens[..i]);
    forall k | 0 <= k < |kept|
      ensures kept[k] in tokens && !IsResult(kept[k])
    {
      var j :| 0 <= j < i && tokens[..i][j] == kept[k];
      assert tokens[j] == kept[k];
    }
  }

  /**
   The moves of a movetext: every token in turn, move numbers skipped,
   stopping at the first result marker.
   */
  method ParsePgn(pgn: string) returns (moves: seq<string>)
    ensures moves == MovesOf(pgn)
    ensures forall i :: 0 <= i < |moves| ==>
      moves[i] in Tokens(pgn) && IsToken(moves[i]) && !IsMoveNumber(moves[i]) && !IsResult(moves[i])
  {
    var tokens := Tokens(pgn);
    moves := [];
    var i := 0;
    while i < |tokens|
      invariant 0 <= i <= |tokens|
      invariant i <= ResultIndex(tokens)
      invariant moves == DropMoveNumbers(tokens[..i])
    {
      var token := tokens[i];
      ParseStep(tokens, i);
      if token[|token| - 1] == '.' {
        PastResultIndex(tokens, i);
        i := i + 1;
        continue;
      }
      if token == "0-1" || token == "1-0" || token == "1/2-1/2" {
        break;
      }
      PastResultIndex(tokens, i);
      moves := moves + [token];
      i := i + 1;
    }
    assert i == ResultIndex(tokens);
    KeptAreTokens(tokens, i);
  }
}
