/** The line classifier of `processCommand` (src/userManager.ts): the three
    anchored regular expressions, the exact `Quit` test, the prefix tests that
    produce usage errors, and the `Unknown command.` fallback, tried in the
    order the program tries them. */
module Commands {
  import opened Wrappers
  import opened Text
  import opened Grammar

  /** The keywords of the `Command` enum that take arguments, with the
      number of `(\S+)` groups their regular expression captures. */
  datatype Keyword = Add | Delete | Update {

    function Word(): string {
      match this
      case Add => "Adding"
      case Delete => "Deleting"
      case Update => "Updating"
    }

    function Arity(): nat {
      if Delete? then 1 else 3
    }
  }

  /** The `Quit` member of the `Command` enum, recognised by exact equality. */
  const QuitWord: string := "Quit"

  /** What a line means to the interpreter. */
  datatype Request =
    | Adding(userId: string, username: string, password: string)
    | Deleting(userId: string)
    | Updating(userId: string, username: string, password: string)
    | Quitting
    | Incomplete(keyword: Keyword)
    | Unknown

  /** The regular expression of keyword `k` tested against `line`: the
      captured arguments, or None when it does not match. */
  function Match(line: string, k: Keyword): (r: Option<seq<string>>)
    ensures r.Some? ==> |r.value| == k.Arity()
  {
    if StartsWith(line, k.Word()) then GroupsFrom(line, |k.Word()|, k.Arity()) else None
  }

  /** At most one keyword is a prefix of any line (they begin with
      different letters), so the order of the keyword tests never matters
      between keywords. */
  lemma KeywordsExclusive(line: string, k: Keyword, k': Keyword)
    requires StartsWith(line, k.Word()) && StartsWith(line, k'.Word())
    ensures k == k'
  {
    assert line[0] == k.Word()[0] == k'.Word()[0];
  }

  /** The classifier of `processCommand`. Its branches are tried in the
      source's order, but the contract characterises each outcome on its
      own: a grammar's request exactly when its regular expression matches,
      a usage error exactly when the line starts with a keyword whose
      regular expression fails, `Unknown` exactly when nothing else applies. */
  function Classify(line: string): (r: Request)
    ensures r.Adding? <==> Match(line, Add).Some?
    ensures r.Adding? ==> Match(line, Add) == Some([r.userId, r.username, r.password])
    ensures r.Deleting? <==> Match(line, Delete).Some?
    ensures r.Deleting? ==> Match(line, Delete) == Some([r.userId])
    ensures r.Updating? <==> Match(line, Update).Some?
    ensures r.Updating? ==> Match(line, Update) == Some([r.userId, r.username, r.password])
    ensures r.Quitting? <==> line == QuitWord
    ensures forall k: Keyword :: r == Incomplete(k) <==> StartsWith(line, k.Word()) && Match(line, k).None?
    ensures r.Unknown? <==> line != QuitWord && forall k: Keyword :: !StartsWith(line, k.Word())
  {
    KeywordsExclusiveAll(line);
    var add := Match(line, Add);
    var del := Match(line, Delete);
    var upd := Match(line, Update);
    if add.Some? then
      assert add.value == [add.value[0], add.value[1], add.value[2]];
      Adding(add.value[0], add.value[1], add.value[2])
    else if del.Some? then
      assert del.value == [del.value[0]];
      Deleting(del.value[0])
    else if upd.Some? then
      assert upd.value == [upd.value[0], upd.value[1], upd.value[2]];
      Updating(upd.value[0], upd.value[1], upd.value[2])
    else if line == QuitWord then Quitting
    else if StartsWith(line, Add.Word()) then Incomplete(Add)
    else if StartsWith(line, Delete.Word()) then Incomplete(Delete)
    else if StartsWith(line, Update.Word()) then Incomplete(Update)
    else Unknown
  }

  /** `KeywordsExclusive` for every pair at once, and `Quit` starts with no keyword. */
  lemma KeywordsExclusiveAll(line: string)
    ensures forall k: Keyword, k': Keyword | StartsWith(line, k.Word()) && StartsWith(line, k'.Word()) :: k == k'
    ensures line == QuitWord ==> forall k: Keyword :: !StartsWith(line, k.Word())
  {
    forall k: Keyword, k': Keyword | StartsWith(line, k.Word()) && StartsWith(line, k'.Word())
      ensures k == k'
    {
      KeywordsExclusive(line, k, k');
    }
  }

  /** Every keyword's regular expression is anchored at the start of the
      line, so a line that begins with whitespace matches none of them, is
      not `Quit`, and falls through to `Unknown command.`. */
  lemma LeadingSpaceIsUnknown(line: string)
    requires line != [] && IsSpace(line[0])
    ensures Classify(line) == Unknown
  {
  }

  /** A line that starts with a keyword and ends in whitespace fails that
      keyword's regular expression (`(\S+)$` cannot end on whitespace) and
      gets the keyword's usage error. */
  lemma TrailingSpaceIsIncomplete(line: string, k: Keyword)
    requires StartsWith(line, k.Word()) && IsSpace(line[|line| - 1])
    ensures Classify(line) == Incomplete(k)
  {
    if Match(line, k).Some? {
      GroupsEndWithToken(line, |k.Word()|, k.Arity());
    }
  }

  /** A keyword glued to a non-whitespace character (`Addingx a b c`) fails
      the regular expression, which needs `\s+` right after the keyword,
      yet still starts with the keyword: a usage error, not an unknown command. */
  lemma GluedKeywordIsIncomplete(line: string, k: Keyword)
    requires StartsWith(line, k.Word()) && |k.Word()| < |line| && !IsSpace(line[|k.Word()|])
    ensures Classify(line) == Incomplete(k)
  {
  }

  /** A keyword followed by well-formed arguments is classified by the
      number of arguments alone: the keyword's request carrying exactly
      those arguments when there are as many as its grammar captures, and
      its usage error for any other number (`Deleting a b`, a bare
      `Adding`). */
  lemma SpelledOutLineIsClassified(k: Keyword, gaps: seq<string>, tokens: seq<string>)
    requires Spaced(gaps, tokens)
    ensures |tokens| != k.Arity() ==> Classify(k.Word() + Interleave(gaps, tokens)) == Incomplete(k)
    ensures |tokens| == k.Arity() && k == Add ==>
      Classify(k.Word() + Interleave(gaps, tokens)) == Adding(tokens[0], tokens[1], tokens[2])
    ensures |tokens| == k.Arity() && k == Delete ==>
      Classify(k.Word() + Interleave(gaps, tokens)) == Deleting(tokens[0])
    ensures |tokens| == k.Arity() && k == Update ==>
      Classify(k.Word() + Interleave(gaps, tokens)) == Updating(tokens[0], tokens[1], tokens[2])
  {
    var line := k.Word() + Interleave(gaps, tokens);
    assert StartsWith(line, k.Word());
    assert line[|k.Word()|..] == Interleave(gaps, tokens);
    GroupsOfInterleave(line, |k.Word()|, gaps, tokens, k.Arity());
  }

  /** Whatever classifies as a grammar request really is the keyword
      followed by well-formed whitespace gaps and the request's arguments. */
  lemma ClassifiedLineIsSpelledOut(line: string) returns (k: Keyword, gaps: seq<string>, tokens: seq<string>)
    requires Classify(line).Adding? || Classify(line).Deleting? || Classify(line).Updating?
    ensures Spaced(gaps, tokens) && line == k.Word() + Interleave(gaps, tokens)
    ensures Classify(line).Adding? ==> k == Add && tokens == [Classify(line).userId, Classify(line).username, Classify(line).password]
    ensures Classify(line).Deleting? ==> k == Delete && tokens == [Classify(line).userId]
    ensures Classify(line).Updating? ==> k == Update && tokens == [Classify(line).userId, Classify(line).username, Classify(line).password]
  {
    var r := Classify(line);
    k := if r.Adding? then Add else if r.Deleting? then Delete else Update;
    tokens := Match(line, k).value;
    gaps := MatchIsSpelledOut(line, |k.Word()|, k.Arity());
    assert line == line[..|k.Word()|] + line[|k.Word()|..];
  }

  /** The corner cases of the classifier on concrete lines. */
  lemma CornerCases()
    ensures Classify("Addingx a b c") == Incomplete(Add)
    ensures Classify("Deleting u1 ") == Incomplete(Delete)
    ensures Classify(" Updating u1 bob pw") == Unknown
    ensures Classify("Quit ") == Unknown
    ensures Classify("Quit") == Quitting
  {
    GluedKeywordIsIncomplete("Addingx a b c", Add);
    TrailingSpaceIsIncomplete("Deleting u1 ", Delete);
    LeadingSpaceIsUnknown(" Updating u1 bob pw");
  }
}
