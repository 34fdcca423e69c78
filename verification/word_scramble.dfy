/** The logic of the word game's single screen: the state the view holds,
    the guess-submission step run when the text field is submitted, and the
    picker of a starting word from the embedded word list. */
module WordScramble {
  import opened Wrappers
  import opened StringOps

  // ---------------------------------------------------------------------------
  // Starting word
  // ---------------------------------------------------------------------------

  /** The embedded word list: a multi-line literal whose closing delimiter's
      indentation is stripped, leaving one word per line and no trailing
      newline. */
  const StartingWordList: string := "a\nb\nc"

  /** The separator `getStartingWord` splits on. */
  const Newline: char := '\n'

  /** `xs.randomElement()`, with the random source made a parameter: `choice`
      stands for whatever the generator produced, and any index of a
      non-empty `xs` is picked by some `choice`. An empty collection gives
      `nil`. */
  function RandomElement<T>(xs: seq<T>, choice: nat): (r: Option<T>)
    ensures r.None? <==> |xs| == 0
    ensures r.Some? ==> r.value in xs
    ensures choice < |xs| ==> r == Some(xs[choice])
  {
    if |xs| == 0 then None else Some(xs[choice % |xs|])
  }

  /** Splitting the embedded list on newlines gives its three words. */
  lemma StartingWordListComponents()
    ensures Components(StartingWordList, Newline) == ["a", "b", "c"]
  {
    var words := ["a", "b", "c"];
    assert Joined(words, Newline) == StartingWordList;
    assert forall i :: 0 <= i < |words| ==> Newline !in words[i];
    ComponentsJoined(words, Newline);
  }

  /** `getStartingWord()`: split the list on newlines and force-unwrap a
      random element. The unwrap is `Extract`, whose precondition is
      discharged here, so the `!` never traps. */
  function GetStartingWord(choice: nat): (w: string)
    ensures w in Components(StartingWordList, Newline)
    ensures w == "a" || w == "b" || w == "c"
  {
    var letters := Components(StartingWordList, Newline);
    var letter := RandomElement(letters, choice);
    StartingWordListComponents();
    letter.Extract()
  }

  /** Whatever text is split, a random element of the pieces exists: the
      force-unwrap after `components(separatedBy:)` cannot fail. */
  lemma ComponentsUnwrapNeverTraps(s: string, sep: char, choice: nat)
    ensures RandomElement(Components(s, sep), choice).Some?
  {
  }

  /** Each word of the list is returned for some outcome of the generator. */
  lemma StartingWordsAllReachable()
    ensures GetStartingWord(0) == "a"
    ensures GetStartingWord(1) == "b"
    ensures GetStartingWord(2) == "c"
  {
    StartingWordListComponents();
  }

  // ---------------------------------------------------------------------------
  // View state and guess submission
  // ---------------------------------------------------------------------------

  /** The view's state: the accepted answers, most recent first; the root
      word shown as the title; and the text field's current contents. */
  datatype ContentView = ContentView(usedWords: seq<string>, rootWord: string, newWord: string)

  /** A freshly created view: no answers, empty title, empty text field. */
  const InitialView := ContentView([], "", "")

  /** What a stored answer looks like: non-empty, no upper-case letter,
      and no whitespace or newline at either end. */
  predicate IsStoredAnswer(w: string) {
    |w| > 0 && NoAsciiUpper(w) && NoEdgeWhitespace(w)
  }

  /** The typed text lower-cased and then trimmed of whitespace and
      newlines: a trim window of the lower-cased text. It is empty exactly
      when the text is only whitespace. */
  function Answer(text: string): (a: string)
    ensures exists lo, hi :: IsTrimWindow(Lowercased(text), lo, hi) && a == Lowercased(text)[lo..hi]
    ensures NoAsciiUpper(a) && NoEdgeWhitespace(a)
    ensures |a| <= |text|
    ensures |a| == 0 <==> AllWhitespace(text)
  {
    TrimmedKeepsNoAsciiUpper(Lowercased(text));
    assert exists lo, hi :: IsTrimWindow(Lowercased(text), lo, hi) && Trimmed(Lowercased(text)) == Lowercased(text)[lo..hi] by {
      var lo, hi := TrimmedIsWindow(Lowercased(text));
    }
    Trimmed(Lowercased(text))
  }

  /** Normalising leaves a text unchanged exactly when it is already in
      stored form (or empty). */
  lemma AnswerFixedPoint(text: string)
    ensures Answer(text) == text <==> NoAsciiUpper(text) && NoEdgeWhitespace(text)
  {
    if NoAsciiUpper(text) && NoEdgeWhitespace(text) {
      LowercasedFixedPoint(text);
      TrimmedFixedPoint(text);
    }
  }

  /** Normalising twice is normalising once. */
  lemma AnswerIdempotent(text: string)
    ensures Answer(Answer(text)) == Answer(text)
  {
    AnswerFixedPoint(Answer(text));
  }

  /** `addNewWord()`: a blank (empty or whitespace-only) entry is ignored and
      the state is left exactly as it was; any other entry is normalised,
      inserted at the front of the answers, and the text field is cleared.
      No other check is made, and the root word is never touched. */
  function AddNewWord(v: ContentView): (v': ContentView)
    ensures v'.rootWord == v.rootWord
    ensures AllWhitespace(v.newWord) ==> v' == v
    ensures !AllWhitespace(v.newWord) ==>
      && |v'.usedWords| == |v.usedWords| + 1
      && v'.usedWords[0] == Answer(v.newWord)
      && IsStoredAnswer(v'.usedWords[0])
      && v'.usedWords[1..] == v.usedWords
      && v'.newWord == ""
  {
    var answer := Answer(v.newWord);
    if |answer| > 0 then
      v.(usedWords := [answer] + v.usedWords, newWord := "")
    else
      v
  }

  // ---------------------------------------------------------------------------
  // Runs of the screen
  // ---------------------------------------------------------------------------

  /** The only two ways the state changes: the text field's binding writes
      the typed text into `newWord`, and submitting the field runs
      `addNewWord`. */
  datatype Action = Type(text: string) | Submit

  /** One user action. Typing replaces only the text field; submitting is
      `addNewWord`. Neither touches the root word. */
  function Step(v: ContentView, a: Action): (v': ContentView)
    ensures v'.rootWord == v.rootWord
    ensures a.Type? ==> v'.usedWords == v.usedWords && v'.newWord == a.text
    ensures a.Submit? && AllWhitespace(v.newWord) ==> v' == v
    ensures a.Submit? && !AllWhitespace(v.newWord) ==>
      v'.usedWords == [Answer(v.newWord)] + v.usedWords && v'.newWord == ""
  {
    match a
    case Type(text) => v.(newWord := text)
    case Submit => AddNewWord(v)
  }

  /** Number of submits in `actions`. */
  function Submits(actions: seq<Action>): (n: nat)
    ensures n <= |actions|
  {
    if |actions| == 0 then 0 else (if actions[0].Submit? then 1 else 0) + Submits(actions[1..])
  }

  /** A sequence of actions applied in order. The root word never changes,
      and each submit adds at most one answer while typing adds none. */
  function Run(v: ContentView, actions: seq<Action>): (v': ContentView)
    ensures v'.rootWord == v.rootWord
    ensures |v.usedWords| <= |v'.usedWords| <= |v.usedWords| + Submits(actions)
    decreases |actions|
  {
    if |actions| == 0 then v else Run(Step(v, actions[0]), actions[1..])
  }

  /** What holds of every view the screen can reach: the root word is still
      the initial "" and every answer is in stored form. */
  predicate Reachable(v: ContentView) {
    && v.rootWord == ""
    && forall i :: 0 <= i < |v.usedWords| ==> IsStoredAnswer(v.usedWords[i])
  }

  lemma StepPreservesReachable(v: ContentView, a: Action)
    requires Reachable(v)
    ensures Reachable(Step(v, a))
  {
    if a.Submit? && !AllWhitespace(v.newWord) {
      var v' := AddNewWord(v);
      forall i | 0 <= i < |v'.usedWords| ensures IsStoredAnswer(v'.usedWords[i]) {
        if i > 0 {
          assert v'.usedWords[i] == v'.usedWords[1..][i - 1];
        }
      }
    }
  }

  /** Every run from any reachable view stays reachable. */
  lemma {:induction false} RunPreservesReachable(v: ContentView, actions: seq<Action>)
    requires Reachable(v)
    ensures Reachable(Run(v, actions))
    decreases |actions|
  {
    if |actions| > 0 {
      StepPreservesReachable(v, actions[0]);
      RunPreservesReachable(Step(v, actions[0]), actions[1..]);
    }
  }

  /** From the freshly created view, whatever is typed and submitted, the
      root word stays "" and every stored answer is normalised. */
  lemma InitialRunsReachable(actions: seq<Action>)
    ensures Run(InitialView, actions).rootWord == ""
    ensures forall i :: 0 <= i < |Run(InitialView, actions).usedWords| ==>
      IsStoredAnswer(Run(InitialView, actions).usedWords[i])
  {
    RunPreservesReachable(InitialView, actions);
  }

  /** `a` is what is left of `b` after dropping some front elements. */
  predicate IsSuffixOf(a: seq<string>, b: seq<string>) {
    |a| <= |b| && b[|b| - |a|..] == a
  }

  lemma SuffixTransitive(a: seq<string>, b: seq<string>, c: seq<string>)
    requires IsSuffixOf(a, b) && IsSuffixOf(b, c)
    ensures IsSuffixOf(a, c)
  {
    assert c[|c| - |a|..] == c[|c| - |b|..][|b| - |a|..];
  }

  /** Answers are only ever put in front: the earlier list survives, in
      order, as the tail of the later one. */
  lemma {:induction false} RunOnlyPrepends(v: ContentView, actions: seq<Action>)
    ensures IsSuffixOf(v.usedWords, Run(v, actions).usedWords)
    decreases |actions|
  {
    var u := v.usedWords;
    if |actions| == 0 {
      assert u[|u| - |u|..] == u;
    } else {
      var v1 := Step(v, actions[0]);
      RunOnlyPrepends(v1, actions[1..]);
      assert IsSuffixOf(u, v1.usedWords) by {
        var u1 := v1.usedWords;
        if u1 == u {
          assert u1[|u1| - |u|..] == u;
        } else {
          assert u1[1..] == u;
        }
      }
      SuffixTransitive(u, v1.usedWords, Run(v, actions).usedWords);
    }
  }

  /** There is no duplicate check: the same entry submitted twice is stored
      twice, at the two front positions. */
  lemma SubmitTwiceStoresTwice(v: ContentView, text: string)
    requires !AllWhitespace(text)
    ensures |Run(v, [Type(text), Submit, Type(text), Submit]).usedWords| == |v.usedWords| + 2
    ensures Run(v, [Type(text), Submit, Type(text), Submit]).usedWords[0] == Answer(text)
    ensures Run(v, [Type(text), Submit, Type(text), Submit]).usedWords[1] == Answer(text)
    ensures Run(v, [Type(text), Submit, Type(text), Submit]).usedWords[2..] == v.usedWords
  {
    var actions := [Type(text), Submit, Type(text), Submit];
    var v1 := AddNewWord(v.(newWord := text));
    var v2 := AddNewWord(v1.(newWord := text));
    assert Run(v, actions) == Run(v.(newWord := text), actions[1..]);
    assert actions[1..][1..] == [Type(text), Submit];
    assert Run(v, actions) == Run(v1.(newWord := text), [Submit]);
    assert Run(v, actions) == v2;
    assert v2.usedWords[2..] == v1.usedWords[1..];
  }

  /** Re-entering an answer that is already stored stores the very same
      string again. */
  lemma ResubmitStoredAnswer(v: ContentView, w: string)
    requires IsStoredAnswer(w)
    ensures AddNewWord(v.(newWord := w)).usedWords == [w] + v.usedWords
  {
    AnswerFixedPoint(w);
    assert !AllWhitespace(w) by {
      assert !IsWhitespaceOrNewline(w[0]);
    }
  }
}
