/** Quiz prompts: validating an answer key, grading an answer, normalizing free text. */
module Quiz {
  import opened Options
  import opened SortedIds

  datatype Choice = Choice(id: string, text: string)

  datatype Prompt =
    | SingleChoice(choices: seq<Choice>, key: string)
    | MultiSelect(choices: seq<Choice>, keys: seq<string>)
    | TrueFalse(truth: bool)
    | Ordering(items: seq<Choice>, order: seq<string>)
    | ShortAnswer(accepted: seq<string>)

  datatype Answer =
    | PickedOne(id: string)
    | PickedMany(ids: seq<string>)
    | Said(truth: bool)
    | Ordered(ids: seq<string>)
    | Wrote(text: string)

  // ---------------------------------------------------------------- words

  /** The Unicode White_Space property. */
  predicate White(c: char) {
    var n := c as int;
    0x09 <= n <= 0x0D || n == 0x20 || n == 0x85 || n == 0xA0 || n == 0x1680 || 0x2000 <= n <= 0x200A
    || n == 0x2028 || n == 0x2029 || n == 0x202F || n == 0x205F || n == 0x3000
  }

  predicate IsWord(w: string) {
    w != [] && forall i :: 0 <= i < |w| ==> !White(w[i])
  }

  predicate AreWords(ws: seq<string>) {
    forall i :: 0 <= i < |ws| ==> IsWord(ws[i])
  }

  /** The length of the word a text starts with; 0 when it starts with white space. */
  function WordLength(s: string): (n: nat)
    ensures n <= |s| && (forall i :: 0 <= i < n ==> !White(s[i])) && (n < |s| ==> White(s[n]))
  {
    if s == [] || White(s[0]) then 0 else 1 + WordLength(s[1..])
  }

  function Words(s: string): (ws: seq<string>)
    ensures AreWords(ws)
  {
    if s == [] then []
    else if White(s[0]) then Words(s[1..])
    else [s[..WordLength(s)]] + Words(s[WordLength(s)..])
  }

  function JoinWords(ws: seq<string>): string {
    if ws == [] then [] else if |ws| == 1 then ws[0] else ws[0] + " " + JoinWords(ws[1..])
  }

  lemma {:induction false} WordsOfJoined(ws: seq<string>)
    requires AreWords(ws)
    ensures Words(JoinWords(ws)) == ws
  {
    if ws != [] {
      var s, w := JoinWords(ws), ws[0];
      if |ws| == 1 {
        assert WordLength(s) == |w| && s[|w|..] == [];
      } else {
        assert s[|w|] == ' ' && WordLength(s) == |w|;
        assert s[|w|..][1..] == JoinWords(ws[1..]);
        WordsOfJoined(ws[1..]);
      }
      assert s[..|w|] == w;
    }
  }

  /** Single spaces between words and nothing else that is white. */
  predicate Tidy(s: string) {
    && (s != [] ==> !White(s[0]) && !White(s[|s| - 1]))
    && (forall i :: 0 <= i < |s| && White(s[i]) ==> s[i] == ' ')
    && (forall i :: 0 <= i < |s| - 1 ==> !(White(s[i]) && White(s[i + 1])))
  }

  lemma {:induction false} JoinedIsTidy(ws: seq<string>)
    requires AreWords(ws)
    ensures Tidy(JoinWords(ws)) && (ws != [] ==> JoinWords(ws) != [])
  {
    if |ws| > 1 {
      JoinedIsTidy(ws[1..]);
    }
  }

  // ---------------------------------------------------------------- normalization

  type Lowering = string -> string

  function Map(lower: Lowering, ws: seq<string>): seq<string> {
    seq(|ws|, i requires 0 <= i < |ws| => lower(ws[i]))
  }

  /**
    * What is assumed of lower-casing a text: spaces separate what is lowered, and lowering a
    * word gives a word that lowering leaves alone.
    */
  ghost predicate LowersWordwise(lower: Lowering) {
    && (forall ws :: AreWords(ws) ==> lower(JoinWords(ws)) == JoinWords(Map(lower, ws)))
    && (forall w :: IsWord(w) ==> IsWord(lower(w)) && lower(lower(w)) == lower(w))
  }

  function NormalizeShortAnswer(lower: Lowering, text: string): string {
    lower(JoinWords(Words(text)))
  }

  lemma NormalizedWords(lower: Lowering, text: string)
    requires LowersWordwise(lower)
    ensures Words(NormalizeShortAnswer(lower, text)) == Map(lower, Words(text))
    ensures NormalizeShortAnswer(lower, text) == JoinWords(Map(lower, Words(text)))
  {
    WordsOfJoined(Map(lower, Words(text)));
  }

  /** Normalizing yields tidy text, and normalizing again changes nothing. */
  lemma NormalizedIsTidy(lower: Lowering, text: string)
    requires LowersWordwise(lower)
    ensures Tidy(NormalizeShortAnswer(lower, text))
    ensures NormalizeShortAnswer(lower, NormalizeShortAnswer(lower, text)) == NormalizeShortAnswer(lower, text)
  {
    var ws := Map(lower, Words(text));
    NormalizedWords(lower, text);
    JoinedIsTidy(ws);
    assert Map(lower, ws) == ws;
  }

  /** Two texts are the same answer exactly when their words agree up to case. */
  lemma NormalizeEqualIff(lower: Lowering, a: string, b: string)
    requires LowersWordwise(lower)
    ensures NormalizeShortAnswer(lower, a) == NormalizeShortAnswer(lower, b)
       <==> Map(lower, Words(a)) == Map(lower, Words(b))
  {
    NormalizedWords(lower, a);
    NormalizedWords(lower, b);
  }

  // ---------------------------------------------------------------- validation

  function Ids(choices: seq<Choice>): seq<string> {
    seq(|choices|, i requires 0 <= i < |choices| => choices[i].id)
  }

  predicate Blank(text: string) {
    Words(text) == []
  }

  /** At least two choices, distinguishable by id, none of them blank. */
  predicate GoodChoices(choices: seq<Choice>) {
    |choices| >= 2 && Distinct(Ids(choices)) && forall c <- choices :: !Blank(c.text)
  }

  /** A prompt whose key can be graded. */
  predicate WellFormed(prompt: Prompt) {
    match prompt
    case SingleChoice(choices, key) => GoodChoices(choices) && key in Ids(choices)
    case MultiSelect(choices, keys) => GoodChoices(choices) && keys != [] && forall k <- keys :: k in Ids(choices)
    case TrueFalse(_) => true
    case Ordering(items, order) => GoodChoices(items) && multiset(Ids(items)) == multiset(order)
    case ShortAnswer(accepted) => exists a <- accepted :: !Blank(a)
  }

  datatype Problem = TooFewChoices | DuplicateIds | EmptyChoice | UnknownKey | NoKey | NotAPermutation | NoAcceptedAnswer

  /** The first problem with a list of choices, in the order they are looked for. */
  predicate ChoiceProblem(choices: seq<Choice>, p: Problem) {
    match p
    case TooFewChoices => |choices| < 2
    case DuplicateIds => |choices| >= 2 && !Distinct(Ids(choices))
    case EmptyChoice => |choices| >= 2 && Distinct(Ids(choices)) && exists c <- choices :: Blank(c.text)
    case _ => false
  }

  method CheckChoices(choices: seq<Choice>) returns (r: Result<(), Problem>)
    ensures r.Ok? <==> GoodChoices(choices)
    ensures r.Err? ==> ChoiceProblem(choices, r.error)
  {
    if |choices| < 2 {
      return Err(TooFewChoices);
    }
    var dup := HasDuplicates(Ids(choices));
    if dup {
      return Err(DuplicateIds);
    }
    if exists c <- choices :: Blank(c.text) {
      return Err(EmptyChoice);
    }
    return Ok(());
  }

  method Validate(prompt: Prompt) returns (r: Result<(), Problem>)
    ensures r.Ok? <==> WellFormed(prompt)
    ensures r.Err? ==> match prompt
      case SingleChoice(choices, _) => if GoodChoices(choices) then r.error == UnknownKey else ChoiceProblem(choices, r.error)
      case MultiSelect(choices, keys) =>
        if GoodChoices(choices) then r.error == (if keys == [] then NoKey else UnknownKey)
        else ChoiceProblem(choices, r.error)
      case Ordering(items, _) => if GoodChoices(items) then r.error == NotAPermutation else ChoiceProblem(items, r.error)
      case ShortAnswer(_) => r.error == NoAcceptedAnswer
      case TrueFalse(_) => true
  {
    match prompt {
      case SingleChoice(choices, key) =>
        var checked := CheckChoices(choices);
        if checked.Err? {
          return checked;
        }
        return if key in Ids(choices) then Ok(()) else Err(UnknownKey);
      case MultiSelect(choices, keys) =>
        var checked := CheckChoices(choices);
        if checked.Err? {
          return checked;
        }
        if keys == [] {
          return Err(NoKey);
        }
        return if forall k <- keys :: k in Ids(choices) then Ok(()) else Err(UnknownKey);
      case TrueFalse(_) =>
        return Ok(());
      case Ordering(items, order) =>
        var checked := CheckChoices(items);
        if checked.Err? {
          return checked;
        }
        var same := ArePermutations(Ids(items), order);
        return if same then Ok(()) else Err(NotAPermutation);
      case ShortAnswer(accepted) =>
        return if exists a <- accepted :: !Blank(a) then Ok(()) else Err(NoAcceptedAnswer);
    }
  }

  // ---------------------------------------------------------------- grading

  /** The grade of an answer; None when its shape does not fit the prompt. */
  ghost function Grade(lower: Lowering, prompt: Prompt, answer: Answer): Option<bool> {
    match (prompt, answer)
    case (SingleChoice(_, key), PickedOne(id)) => Some(id == key)
    case (MultiSelect(_, keys), PickedMany(ids)) => Some(SameMembers(keys, ids))
    case (TrueFalse(truth), Said(said)) => Some(said == truth)
    case (Ordering(_, order), Ordered(ids)) => Some(ids == order)
    case (ShortAnswer(accepted), Wrote(text)) => Some(exists a <- accepted :: SameWords(lower, a, text))
    case _ => None
  }

  predicate SameWords(lower: Lowering, a: string, b: string) {
    Map(lower, Words(a)) == Map(lower, Words(b))
  }

  method AnyAccepted(lower: Lowering, accepted: seq<string>, text: string) returns (found: bool)
    requires LowersWordwise(lower)
    ensures found <==> exists a <- accepted :: SameWords(lower, a, text)
  {
    var normalized := NormalizeShortAnswer(lower, text);
    found := false;
    for i := 0 to |accepted|
      invariant !found && forall j :: 0 <= j < i ==> !SameWords(lower, accepted[j], text)
    {
      NormalizeEqualIff(lower, accepted[i], text);
      assert accepted[i] in accepted;
      if NormalizeShortAnswer(lower, accepted[i]) == normalized {
        return true;
      }
    }
  }

  method GradeAnswer(lower: Lowering, prompt: Prompt, answer: Answer) returns (r: Option<bool>)
    requires LowersWordwise(lower)
    ensures r == Grade(lower, prompt, answer)
  {
    match (prompt, answer) {
      case (SingleChoice(_, key), PickedOne(id)) =>
        r := Some(id == key);
      case (MultiSelect(_, keys), PickedMany(ids)) =>
        var same := EqualAsSets(keys, ids);
        r := Some(same);
      case (TrueFalse(truth), Said(said)) =>
        r := Some(said == truth);
      case (Ordering(_, order), Ordered(ids)) =>
        r := Some(ids == order);
      case (ShortAnswer(accepted), Wrote(text)) =>
        var found := AnyAccepted(lower, accepted, text);
        r := Some(found);
      case _ =>
        r := None;
    }
  }

  /** A validated prompt can be answered correctly. */
  lemma ValidatedIsAnswerable(lower: Lowering, prompt: Prompt) returns (answer: Answer)
    requires WellFormed(prompt)
    ensures Grade(lower, prompt, answer) == Some(true)
  {
    match prompt {
      case SingleChoice(_, key) => answer := PickedOne(key);
      case MultiSelect(_, keys) => answer := PickedMany(keys);
      case TrueFalse(truth) => answer := Said(truth);
      case Ordering(_, order) => answer := Ordered(order);
      case ShortAnswer(accepted) =>
        var a :| a in accepted && !Blank(a);
        answer := Wrote(a);
        assert SameWords(lower, a, a);
    }
  }

  /** A correct answer to a validated prompt names offered choices; an order, each exactly once. */
  lemma CorrectAnswersAreOffered(lower: Lowering, prompt: Prompt, answer: Answer)
    requires WellFormed(prompt) && Grade(lower, prompt, answer) == Some(true)
    ensures prompt.SingleChoice? ==> answer.id in Ids(prompt.choices)
    ensures prompt.MultiSelect? ==> answer.ids != [] && forall id <- answer.ids :: id in Ids(prompt.choices)
    ensures prompt.Ordering? ==>
      Distinct(answer.ids) && SameMembers(answer.ids, Ids(prompt.items)) && |answer.ids| == |prompt.items|
  {
    if prompt.MultiSelect? {
      assert prompt.keys[0] in answer.ids;
    } else if prompt.Ordering? {
      MembersOfMultiset(Ids(prompt.items), prompt.order);
    }
  }

  /** Exactly one order is correct, and a correct pick of many is one set. */
  lemma CorrectAnswerIsUnique(lower: Lowering, prompt: Prompt, a: Answer, b: Answer)
    requires Grade(lower, prompt, a) == Some(true) && Grade(lower, prompt, b) == Some(true)
    ensures !prompt.MultiSelect? && !prompt.ShortAnswer? ==> a == b
    ensures prompt.MultiSelect? ==> SameMembers(a.ids, b.ids)
  {}

  /**
    * Validation asks for one accepted answer that is not blank but lets blank ones stand
    * beside it: an empty reply is then graded correct, exactly when some accepted entry is blank.
    */
  lemma BlankReplyIsCorrectIff(lower: Lowering, accepted: seq<string>, text: string)
    requires LowersWordwise(lower) && Blank(text)
    ensures Grade(lower, ShortAnswer(accepted), Wrote(text)) == Some(true) <==> exists a <- accepted :: Blank(a)
  {
    forall a | a in accepted
      ensures SameWords(lower, a, text) <==> Blank(a)
    {
      assert |Map(lower, Words(a))| == |Words(a)|;
    }
  }

  /** Such a prompt passes validation, for instance with the entries "m" and "". */
  lemma BlankBesideAnswerIsValid(lower: Lowering, accepted: seq<string>)
    requires LowersWordwise(lower) && accepted == ["m", ""]
    ensures WellFormed(ShortAnswer(accepted)) && Grade(lower, ShortAnswer(accepted), Wrote("")) == Some(true)
  {
    assert Words("m") == ["m"[..1]] + Words("m"[1..]);
    assert accepted[0] in accepted && accepted[1] in accepted;
    BlankReplyIsCorrectIff(lower, accepted, "");
  }

  // ---------------------------------------------------------------- words, without the splitter

  /** The 25 characters with the Unicode White_Space property. */
  lemma WhiteIs(c: char)
    ensures White(c) <==> c as int in {9, 10, 11, 12, 13, 32, 133, 160, 5760, 8192, 8193, 8194, 8195, 8196, 8197, 8198,
                                       8199, 8200, 8201, 8202, 8232, 8233, 8239, 8287, 12288}
  {}

  predicate AllWhite(s: string) {
    forall i :: 0 <= i < |s| ==> White(s[i])
  }

  /** Words with white space before, between and after them; only between must there be some. */
  predicate Gaps(gaps: seq<string>, ws: seq<string>) {
    && |gaps| == |ws| + 1 && AreWords(ws)
    && (forall i :: 0 <= i < |gaps| ==> AllWhite(gaps[i]))
    && (forall i :: 0 < i < |ws| ==> gaps[i] != [])
  }

  function Interleaved(gaps: seq<string>, ws: seq<string>): string
    requires |gaps| == |ws| + 1
  {
    if ws == [] then gaps[0] else gaps[0] + ws[0] + Interleaved(gaps[1..], ws[1..])
  }

  lemma {:induction false} WordsSkipWhite(gap: string, s: string)
    requires AllWhite(gap)
    ensures Words(gap + s) == Words(s)
  {
    if gap == [] {
      assert gap + s == s;
    } else {
      assert (gap + s)[1..] == gap[1..] + s;
      WordsSkipWhite(gap[1..], s);
    }
  }

  lemma WordFirst(w: string, rest: string)
    requires IsWord(w) && (rest != [] ==> White(rest[0]))
    ensures Words(w + rest) == [w] + Words(rest)
  {
    var s := w + rest;
    LengthOfFirst(w, rest);
    assert s[..|w|] == w && s[|w|..] == rest;
  }

  lemma {:induction false} LengthOfFirst(w: string, rest: string)
    requires forall i :: 0 <= i < |w| ==> !White(w[i])
    requires rest != [] ==> White(rest[0])
    ensures WordLength(w + rest) == |w|
  {
    if w == [] {
      assert w + rest == rest;
    } else {
      assert (w + rest)[1..] == w[1..] + rest;
      LengthOfFirst(w[1..], rest);
    }
  }

  lemma StartsWithItsGap(gaps: seq<string>, ws: seq<string>)
    requires Gaps(gaps, ws) && gaps[0] != []
    ensures Interleaved(gaps, ws) != [] && White(Interleaved(gaps, ws)[0])
  {}

  /** However the words of a text are spaced, they are found, and nothing else is. */
  lemma {:induction false} WordsOfSpaced(gaps: seq<string>, ws: seq<string>)
    requires Gaps(gaps, ws)
    ensures Words(Interleaved(gaps, ws)) == ws
  {
    if ws == [] {
      WordsSkipWhite(gaps[0], []);
      assert gaps[0] + [] == gaps[0];
    } else {
      var rest := Interleaved(gaps[1..], ws[1..]);
      WordsOfSpaced(gaps[1..], ws[1..]);
      if |ws| > 1 {
        StartsWithItsGap(gaps[1..], ws[1..]);
      }
      WordFirst(ws[0], rest);
      WordsSkipWhite(gaps[0], ws[0] + rest);
      assert gaps[0] + ws[0] + rest == gaps[0] + (ws[0] + rest);
    }
  }

  lemma WiderGap(c: char, gaps: seq<string>, ws: seq<string>)
    requires White(c) && Gaps(gaps, ws)
    ensures var wider := [[c] + gaps[0]] + gaps[1..];
      Gaps(wider, ws) && Interleaved(wider, ws) == [c] + Interleaved(gaps, ws)
  {
    var wider := [[c] + gaps[0]] + gaps[1..];
    assert wider[1..] == gaps[1..];
    assert forall i :: 0 < i < |gaps| ==> wider[i] == gaps[i];
  }

  lemma OneMoreWord(w: string, gaps: seq<string>, ws: seq<string>)
    requires IsWord(w) && Gaps(gaps, ws) && (ws != [] ==> gaps[0] != [])
    ensures Gaps([[]] + gaps, [w] + ws) && Interleaved([[]] + gaps, [w] + ws) == w + Interleaved(gaps, ws)
  {
    assert ([[]] + gaps)[1..] == gaps && ([w] + ws)[1..] == ws;
  }

  /** Text that begins with white space begins with its first gap. */
  lemma FirstGap(gaps: seq<string>, ws: seq<string>)
    requires Gaps(gaps, ws) && ws != [] && gaps[0] == []
    ensures Interleaved(gaps, ws) != [] && !White(Interleaved(gaps, ws)[0])
  {
    assert Interleaved(gaps, ws) == ws[0] + Interleaved(gaps[1..], ws[1..]);
  }

  /** Every text is its words, spaced: so its words are the only ones it can be spaced from. */
  lemma {:induction false} SpacedFromWords(s: string) returns (gaps: seq<string>)
    ensures Gaps(gaps, Words(s)) && Interleaved(gaps, Words(s)) == s
    decreases |s|
  {
    if s == [] {
      gaps := [[]];
    } else if White(s[0]) {
      var rest := SpacedFromWords(s[1..]);
      WiderGap(s[0], rest, Words(s[1..]));
      gaps := [[s[0]] + rest[0]] + rest[1..];
      assert s == [s[0]] + s[1..];
    } else {
      var n := WordLength(s);
      var rest := SpacedFromWords(s[n..]);
      if Words(s[n..]) != [] && rest[0] == [] {
        FirstGap(rest, Words(s[n..]));
      }
      OneMoreWord(s[..n], rest, Words(s[n..]));
      gaps := [[]] + rest;
      assert s == s[..n] + s[n..];
    }
  }

  /** A text is blank exactly when every character of it is white space. */
  lemma BlankIff(text: string)
    ensures Blank(text) <==> AllWhite(text)
  {
    var gaps := SpacedFromWords(text);
    if AllWhite(text) {
      WordsOfSpaced([text], []);
    }
  }

  // ---------------------------------------------------------------- the rules, without the code's predicates

  predicate Fits(prompt: Prompt, answer: Answer) {
    || (prompt.SingleChoice? && answer.PickedOne?) || (prompt.MultiSelect? && answer.PickedMany?)
    || (prompt.TrueFalse? && answer.Said?) || (prompt.Ordering? && answer.Ordered?)
    || (prompt.ShortAnswer? && answer.Wrote?)
  }

  function Members(ids: seq<string>): set<string> {
    set id <- ids :: id
  }

  predicate SameNormalForm(lower: Lowering, a: string, b: string) {
    NormalizeShortAnswer(lower, a) == NormalizeShortAnswer(lower, b)
  }

  /** An answer is graded exactly if it fits; picks are compared as sets, orders place by place. */
  lemma GradeMeans(lower: Lowering, prompt: Prompt, answer: Answer)
    requires LowersWordwise(lower)
    ensures var g := Grade(lower, prompt, answer);
      && (g.None? <==> !Fits(prompt, answer))
      && (prompt.SingleChoice? && answer.PickedOne? ==> (g.value <==> answer.id == prompt.key))
      && (prompt.MultiSelect? && answer.PickedMany? ==> (g.value <==> Members(answer.ids) == Members(prompt.keys)))
      && (prompt.TrueFalse? && answer.Said? ==> (g.value <==> answer.truth == prompt.truth))
      && (prompt.Ordering? && answer.Ordered? ==>
            (g.value <==> |answer.ids| == |prompt.order| && forall i :: 0 <= i < |answer.ids| ==> answer.ids[i] == prompt.order[i]))
      && (prompt.ShortAnswer? && answer.Wrote? ==>
            (g.value <==> exists i :: 0 <= i < |prompt.accepted| && SameNormalForm(lower, prompt.accepted[i], answer.text)))
  {
    if prompt.MultiSelect? && answer.PickedMany? {
      assert forall id :: id in Members(answer.ids) <==> id in answer.ids;
      assert forall id :: id in Members(prompt.keys) <==> id in prompt.keys;
    } else if prompt.ShortAnswer? && answer.Wrote? {
      forall i | 0 <= i < |prompt.accepted|
        ensures prompt.accepted[i] in prompt.accepted
        ensures SameWords(lower, prompt.accepted[i], answer.text) <==> SameNormalForm(lower, prompt.accepted[i], answer.text)
      {
        NormalizeEqualIff(lower, prompt.accepted[i], answer.text);
      }
    }
  }

  /** Two choices or more, as many ids as choices, and some visible text in each. */
  predicate Offerable(choices: seq<Choice>) {
    && |choices| > 1 && |Members(Ids(choices))| == |choices|
    && forall i :: 0 <= i < |choices| ==> !AllWhite(choices[i].text)
  }

  lemma {:induction false} MembersCount(ids: seq<string>)
    ensures |Members(ids)| <= |ids|
    ensures |Members(ids)| == |ids| <==> Distinct(ids)
  {
    if ids != [] {
      var front, last := ids[..|ids| - 1], ids[|ids| - 1];
      MembersCount(front);
      assert ids == front + [last];
      MembersOfAppend(front, last);
      DistinctOfAppend(front, last);
    }
  }

  lemma MembersOfAppend(front: seq<string>, last: string)
    ensures Members(front + [last]) == Members(front) + {last}
    ensures last in Members(front) <==> last in front
  {
    forall x
      ensures x in Members(front + [last]) <==> x in Members(front) + {last}
    {
      assert x in front + [last] <==> x in front || x == last;
    }
  }

  lemma DistinctOfAppend(front: seq<string>, last: string)
    ensures Distinct(front + [last]) <==> Distinct(front) && last !in front
  {
    var s := front + [last];
    assert s[|front|] == last;
    if Distinct(s) {
      forall i, j | 0 <= i < j < |front|
        ensures front[i] != front[j]
      {
        assert s[i] == front[i] && s[j] == front[j];
      }
      forall x | x in front
        ensures x != last
      {
        var i :| 0 <= i < |front| && front[i] == x;
        assert s[i] == x;
      }
    }
    if Distinct(front) && last !in front {
      forall i, j | 0 <= i < j < |s|
        ensures s[i] != s[j]
      {
        assert s[i] == front[i] && front[i] in front;
        assert j < |front| ==> s[j] == front[j];
      }
    }
  }

  /** What validation accepts, kind by kind. */
  lemma WellFormedMeans(prompt: Prompt)
    ensures WellFormed(prompt) <==> match prompt
      case SingleChoice(choices, key) => Offerable(choices) && key in Members(Ids(choices))
      case MultiSelect(choices, keys) => Offerable(choices) && Members(keys) != {} && Members(keys) <= Members(Ids(choices))
      case TrueFalse(_) => true
      case Ordering(items, order) => Offerable(items) && |order| == |items| && Members(order) == Members(Ids(items))
      case ShortAnswer(accepted) => exists i :: 0 <= i < |accepted| && !AllWhite(accepted[i])
  {
    match prompt {
      case SingleChoice(choices, _) => OfferableIs(choices);
      case MultiSelect(choices, keys) =>
        OfferableIs(choices);
        assert forall k :: k in Members(keys) <==> k in keys;
        assert keys != [] ==> keys[0] in keys;
      case TrueFalse(_) =>
      case Ordering(items, order) =>
        OfferableIs(items);
        if Offerable(items) {
          PermutationIs(Ids(items), order);
        }
      case ShortAnswer(accepted) =>
        forall i | 0 <= i < |accepted|
          ensures accepted[i] in accepted && (Blank(accepted[i]) <==> AllWhite(accepted[i]))
        {
          BlankIff(accepted[i]);
        }
    }
  }

  lemma OfferableIs(choices: seq<Choice>)
    ensures GoodChoices(choices) <==> Offerable(choices)
  {
    MembersCount(Ids(choices));
    forall i | 0 <= i < |choices|
      ensures choices[i] in choices && (Blank(choices[i].text) <==> AllWhite(choices[i].text))
    {
      BlankIff(choices[i].text);
    }
  }

  /** With distinct ids, an order is a permutation exactly if it has their number and their members. */
  lemma PermutationIs(ids: seq<string>, order: seq<string>)
    requires |Members(ids)| == |ids|
    ensures multiset(ids) == multiset(order) <==> |order| == |ids| && Members(order) == Members(ids)
  {
    if multiset(ids) == multiset(order) {
      MembersOfMultiset(ids, order);
      assert forall x :: x in Members(ids) <==> x in ids;
      assert forall x :: x in Members(order) <==> x in order;
    } else if |order| == |ids| && Members(order) == Members(ids) {
      MembersCount(ids);
      MembersCount(order);
      forall x
        ensures multiset(ids)[x] == multiset(order)[x]
      {
        CountIs(ids, x);
        CountIs(order, x);
      }
    }
  }

  lemma CountIs(ids: seq<string>, x: string)
    requires Distinct(ids)
    ensures multiset(ids)[x] == if x in Members(ids) then 1 else 0
  {
    DistinctCounts(ids, x);
    assert x in ids <==> x in multiset(ids);
  }
}
