/**
 * The Flashcard component: the test that decides whether a question or an
 * answer is handed to the math renderer, and the card's flip state.
 *
 * Four of the five detection patterns have the shape
 *   L0 .+? L1 .+? ... .+? Ln
 * literal pieces separated by lazy runs of at least one character other
 * than a line terminator. For a `test`, laziness does not matter: a pattern
 * matches the text when some choice of positions fits. The fifth pattern,
 * a command, is a backslash and a run of ASCII letters with an optional
 * brace group after it.
 */
module Flashcard {
  import opened Wrappers
  import opened JsString

  /** `lit` occurs in `s` at position `i`. */
  predicate StartsAt(s: string, i: nat, lit: string) {
    i + |lit| <= |s| && s[i..i + |lit|] == lit
  }

  /** `s[from..to]` holds no line terminator: every character of it matches `.`. */
  predicate OnOneLine(s: string, from: nat, to: nat)
    requires from <= to <= |s|
  {
    forall k | from <= k < to :: !IsLineTerminator(s[k])
  }

  /** The pattern `parts[0] .+? parts[1] .+? ...` matches `s` starting at position `i`. */
  function MatchesAt(s: string, i: nat, parts: seq<string>): bool
    requires |parts| > 0 && i <= |s|
    decreases |parts|, |s| - i, 1
  {
    StartsAt(s, i, parts[0]) &&
    (|parts| == 1 || GapThen(s, i + |parts[0]|, parts[1..]))
  }

  /** A run `.+?` starting at position `m`, followed by the pattern of `rest`. */
  function GapThen(s: string, m: nat, rest: seq<string>): bool
    requires |rest| > 0 && m <= |s|
    decreases |rest|, |s| - m, 0
  {
    m < |s| && !IsLineTerminator(s[m]) &&
    (MatchesAt(s, m + 1, rest) || GapThen(s, m + 1, rest))
  }

  /** The pattern matches somewhere at or after position `i`. */
  function FoundFrom(s: string, i: nat, parts: seq<string>): bool
    requires |parts| > 0 && i <= |s|
    decreases |s| - i
  {
    MatchesAt(s, i, parts) || (i < |s| && FoundFrom(s, i + 1, parts))
  }

  /** `RegExp.prototype.test` for a pattern of literal pieces and lazy runs. */
  predicate Found(s: string, parts: seq<string>)
    requires |parts| > 0
  {
    FoundFrom(s, 0, parts)
  }

  /** `\$.+?\$`: inline math. */
  const InlineDollar: seq<string> := ["$", "$"]
  /** `\\\(.+?\\\)`: inline math. */
  const InlineParen: seq<string> := ["\\(", "\\)"]
  /** `\\\[.+?\\\]`: display math. */
  const DisplayBracket: seq<string> := ["\\[", "\\]"]
  /** `\\begin\{.+?\}.+?\\end\{.+?\}`: an environment. */
  const Environment: seq<string> := ["\\begin{", "}", "\\end{", "}"]

  predicate IsAsciiLetter(c: char) {
    ('a' <= c <= 'z') || ('A' <= c <= 'Z')
  }

  /**
   * `\\[a-zA-Z]+(\{.+?\})?` matches at `i`. The brace group is optional, so
   * the shortest match, a backslash and one letter, always completes it.
   */
  predicate CommandAt(s: string, i: nat) {
    i + 1 < |s| && s[i] == '\\' && IsAsciiLetter(s[i + 1])
  }

  function ContainsCommandFrom(s: string, i: nat): bool
    requires i <= |s|
    decreases |s| - i
  {
    i < |s| && (CommandAt(s, i) || ContainsCommandFrom(s, i + 1))
  }

  predicate ContainsCommand(s: string) {
    ContainsCommandFrom(s, 0)
  }

  /** `containsLatex`: some of the five patterns matches the text. */
  predicate ContainsLatex(text: string) {
    || Found(text, InlineDollar)
    || Found(text, InlineParen)
    || Found(text, DisplayBracket)
    || Found(text, Environment)
    || ContainsCommand(text)
  }

  /** The result of `processContent`: the text to show and whether the math renderer shows it. */
  datatype Processed = Processed(isLatex: bool, content: string)

  /** `processContent`: both branches return the text unchanged; only the flag differs. */
  function ProcessContent(text: string): (p: Processed)
    ensures p.content == text
    ensures p.isLatex <==> ContainsLatex(text)
  {
    if ContainsLatex(text) then Processed(true, text) else Processed(false, text)
  }

  // ---------------------------------------------------------------------
  // Reference definitions: when does a pattern match, stated by positions.
  // ---------------------------------------------------------------------

  /**
   * `open` at `i`, `close` at `j`, and between them at least one character,
   * none of them a line terminator.
   */
  ghost predicate EnclosedAt(s: string, open: string, close: string, i: nat, j: nat) {
    StartsAt(s, i, open) && i + |open| < j && StartsAt(s, j, close) && OnOneLine(s, i + |open|, j)
  }

  ghost predicate Enclosed(s: string, open: string, close: string) {
    exists i: nat, j: nat :: EnclosedAt(s, open, close, i, j)
  }

  /** A backslash at `i` followed by the run of ASCII letters `s[i+1..j]`, at least one of them. */
  ghost predicate CommandRunAt(s: string, i: nat, j: nat) {
    i + 1 < j <= |s| && s[i] == '\\' && forall k | i + 1 <= k < j :: IsAsciiLetter(s[k])
  }

  ghost predicate HasCommandRun(s: string) {
    exists i: nat, j: nat :: CommandRunAt(s, i, j)
  }

  lemma {:induction false} FoundFromSpec(s: string, i: nat, parts: seq<string>)
    requires |parts| > 0 && i <= |s|
    ensures FoundFrom(s, i, parts) <==> exists j: nat | i <= j <= |s| :: MatchesAt(s, j, parts)
    decreases |s| - i
  {
    if MatchesAt(s, i, parts) {
      assert FoundFrom(s, i, parts);
      assert exists j: nat | i <= j <= |s| :: MatchesAt(s, j, parts);
    } else if i < |s| {
      FoundFromSpec(s, i + 1, parts);
      if exists j: nat | i <= j <= |s| :: MatchesAt(s, j, parts) {
        var j: nat :| i <= j <= |s| && MatchesAt(s, j, parts);
        assert i + 1 <= j;
      }
    }
  }

  lemma {:induction false} GapThenSpec(s: string, m: nat, rest: seq<string>)
    requires |rest| > 0 && m <= |s|
    ensures GapThen(s, m, rest) <==>
            exists j: nat | m < j <= |s| :: OnOneLine(s, m, j) && MatchesAt(s, j, rest)
    decreases |s| - m
  {
    if m < |s| {
      GapThenSpec(s, m + 1, rest);
      if GapThen(s, m, rest) && !MatchesAt(s, m + 1, rest) {
        var j: nat :| m + 1 < j <= |s| && OnOneLine(s, m + 1, j) && MatchesAt(s, j, rest);
        assert OnOneLine(s, m, j);
      }
      if exists j: nat | m < j <= |s| :: OnOneLine(s, m, j) && MatchesAt(s, j, rest) {
        var j: nat :| m < j <= |s| && OnOneLine(s, m, j) && MatchesAt(s, j, rest);
        if j != m + 1 {
          assert OnOneLine(s, m + 1, j);
        }
      }
    }
  }

  /** A two-piece pattern `open .+? close` matches exactly when the text has an enclosed run. */
  lemma PairPatternSpec(s: string, open: string, close: string)
    ensures Found(s, [open, close]) <==> Enclosed(s, open, close)
  {
    if Found(s, [open, close]) {
      PairPatternSound(s, open, close);
    }
    if Enclosed(s, open, close) {
      var i: nat, j: nat :| EnclosedAt(s, open, close, i, j);
      PairPatternComplete(s, open, close, i, j);
    }
  }

  lemma PairPatternSound(s: string, open: string, close: string)
    requires Found(s, [open, close])
    ensures Enclosed(s, open, close)
  {
    var parts := [open, close];
    FoundFromSpec(s, 0, parts);
    var i: nat :| i <= |s| && MatchesAt(s, i, parts);
    assert parts[1..] == [close];
    GapThenSpec(s, i + |open|, [close]);
    var j: nat :| i + |open| < j <= |s| && OnOneLine(s, i + |open|, j) && MatchesAt(s, j, [close]);
    assert EnclosedAt(s, open, close, i, j);
  }

  lemma PairPatternComplete(s: string, open: string, close: string, i: nat, j: nat)
    requires EnclosedAt(s, open, close, i, j)
    ensures Found(s, [open, close])
  {
    var parts := [open, close];
    assert parts[1..] == [close];
    assert MatchesAt(s, j, [close]);
    GapThenSpec(s, i + |open|, [close]);
    assert GapThen(s, i + |open|, [close]);
    assert MatchesAt(s, i, parts);
    assert exists k: nat | 0 <= k <= |s| :: MatchesAt(s, k, parts);
    FoundFromSpec(s, 0, parts);
  }

  lemma {:induction false} ContainsCommandFromSpec(s: string, i: nat)
    requires i <= |s|
    ensures ContainsCommandFrom(s, i) <==> exists k: nat | i <= k :: CommandAt(s, k)
    decreases |s| - i
  {
    if i < |s| {
      ContainsCommandFromSpec(s, i + 1);
      if exists k: nat | i <= k :: CommandAt(s, k) {
        var k: nat :| i <= k && CommandAt(s, k);
        if k != i {
          assert i + 1 <= k && CommandAt(s, k);
        }
      }
    }
  }

  /**
   * The command pattern matches exactly when a backslash is followed by a
   * run of ASCII letters, whatever follows the run: the brace group never
   * decides the outcome.
   */
  lemma CommandSpec(s: string)
    ensures ContainsCommand(s) <==> HasCommandRun(s)
  {
    ContainsCommandFromSpec(s, 0);
    if ContainsCommand(s) {
      var k: nat :| CommandAt(s, k);
      assert CommandRunAt(s, k, k + 2);
    }
    if HasCommandRun(s) {
      var i: nat, j: nat :| CommandRunAt(s, i, j);
      assert CommandAt(s, i);
    }
  }

  // ---------------------------------------------------------------------
  // Properties of containsLatex.
  // ---------------------------------------------------------------------

  /** Any text with a backslash directly followed by an ASCII letter goes to the math renderer. */
  lemma BackslashLetterIsLatex(s: string, i: nat)
    requires i + 1 < |s| && s[i] == '\\' && IsAsciiLetter(s[i + 1])
    ensures ContainsLatex(s)
  {
    assert CommandRunAt(s, i, i + 2);
    CommandSpec(s);
  }

  /** Two dollar signs with at least one character between them, on one line, go to the math renderer. */
  lemma DollarPairIsLatex(s: string, i: nat, j: nat)
    requires i + 1 < j < |s| && s[i] == '$' && s[j] == '$' && OnOneLine(s, i + 1, j)
    ensures ContainsLatex(s)
  {
    assert EnclosedAt(s, "$", "$", i, j);
    PairPatternSpec(s, "$", "$");
  }

  /** Every match of the environment pattern is a match of the command pattern. */
  lemma EnvironmentImpliesCommand(s: string)
    ensures Found(s, Environment) ==> ContainsCommand(s)
  {
    if Found(s, Environment) {
      FoundFromSpec(s, 0, Environment);
      var i: nat :| i <= |s| && MatchesAt(s, i, Environment);
      assert s[i..i + 7] == "\\begin{";
      assert s[i] == '\\' && s[i + 1] == 'b';
      BackslashLetterIsLatex(s, i);
      CommandSpec(s);
      assert CommandRunAt(s, i, i + 2);
    }
  }

  /** Dropping the environment pattern from the list never changes the decision. */
  lemma EnvironmentPatternIsRedundant(s: string)
    ensures ContainsLatex(s) <==>
            Found(s, InlineDollar) || Found(s, InlineParen) || Found(s, DisplayBracket) || ContainsCommand(s)
  {
    EnvironmentImpliesCommand(s);
  }

  /** A pattern can only match text that holds the first character of its first piece. */
  lemma FoundNeedsFirstChar(s: string, parts: seq<string>)
    requires |parts| > 0 && parts[0] != []
    ensures Found(s, parts) ==> parts[0][0] in s
  {
    FoundFromSpec(s, 0, parts);
    if Found(s, parts) {
      var i: nat :| i <= |s| && MatchesAt(s, i, parts);
      assert s[i..i + |parts[0]|][0] == s[i];
    }
  }

  /** Text with neither a dollar sign nor a backslash is shown as plain text. */
  lemma PlainTextIsNotLatex(s: string)
    requires '$' !in s && '\\' !in s
    ensures !ContainsLatex(s)
  {
    FoundNeedsFirstChar(s, InlineDollar);
    FoundNeedsFirstChar(s, InlineParen);
    FoundNeedsFirstChar(s, DisplayBracket);
    FoundNeedsFirstChar(s, Environment);
    ContainsCommandFromSpec(s, 0);
  }

  lemma ExampleDecisions()
    ensures ContainsLatex("$x^2$")
    ensures !ContainsLatex("plain question")
    ensures ProcessContent("plain question") == Processed(false, "plain question")
  {
    var t := "$x^2$";
    assert t[1..4] == "x^2";
    DollarPairIsLatex(t, 0, 4);
    PlainTextIsNotLatex("plain question");
  }

  // ---------------------------------------------------------------------
  // Flip state of one mounted card.
  // ---------------------------------------------------------------------

  /** One mounted Flashcard: whether it shows its answer, and whether a flip observer was given. */
  class FlipCard {
    var flipped: bool
    const hasFlipObserver: bool

    /** A card is mounted showing its question. */
    constructor (hasFlipObserver: bool)
      ensures !flipped && this.hasFlipObserver == hasFlipObserver
    {
      flipped := false;
      this.hasFlipObserver := hasFlipObserver;
    }

    /**
     * `handleFlip`: toggles the side shown and returns what is passed to
     * `onFlipStateChange`, when the card has one.
     */
    method HandleFlip() returns (notified: Option<bool>)
      modifies this
      ensures flipped == !old(flipped)
      ensures notified == if hasFlipObserver then Some(flipped) else None
    {
      var newFlippedState := !flipped;
      flipped := newFlippedState;
      if hasFlipObserver {
        notified := Some(newFlippedState);
      } else {
        notified := None;
      }
    }
  }

  /** Flipping twice shows the same side again, and tells the observer each new side. */
  method FlipTwice(card: FlipCard) returns (first: Option<bool>, second: Option<bool>)
    modifies card
    ensures card.flipped == old(card.flipped)
    ensures card.hasFlipObserver ==> first == Some(!old(card.flipped)) && second == Some(old(card.flipped))
  {
    first := card.HandleFlip();
    second := card.HandleFlip();
  }
}
