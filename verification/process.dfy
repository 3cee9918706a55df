/**
 * Record cleaning and vocabulary collection (`class Process`): each scraped
 * record becomes a pair of its label code and its statement's tokens, and
 * the vocabulary is the set of all tokens together with the length of the
 * longest one.
 */
module Process {
  import opened Wrappers
  import opened Text
  import opened Truth

  /**
   * One scraped record as read back from the JSON corpus. A field is `None`
   * when the object lacks that key, which is what `dict.get` reports.
   */
  datatype Record = Record(source: Option<string>, statement: Option<string>, truth: Option<string>)

  /** The exceptions the cleaning step raises. */
  datatype Error =
    | UnknownLabel(found: Option<string>)  // `to_int.get` gave None, and `int(None)` raises
    | MissingStatement                     // `None.strip()` raises

  /** One cleaned record: the tuple `(label code, tokens)`. */
  datatype Cleaned = Cleaned(code: nat, tokens: seq<string>)

  /** A token as the cleaner produces it: no punctuation, no upper-case letter, no space. */
  predicate CleanToken(t: string) {
    forall k :: 0 <= k < |t| ==> !IsPunctuation(t[k]) && !IsUpper(t[k]) && t[k] != ' '
  }

  /**
   * `_get_truth_and_convert_to_number`: the label's position on the scale;
   * a missing or unknown label is an error rather than a default code.
   */
  function TruthCode(x: Record): (r: Result<nat, Error>)
    ensures r.Success? <==> x.truth.Some? && x.truth.value in Both
    ensures r.Success? ==> r.value < |Both| && Both[r.value] == x.truth.value
    ensures r.Failure? ==> r.error == UnknownLabel(x.truth)
  {
    match x.truth
    case Some(l) => if l in ToInt then Success(ToInt[l]) else Failure(UnknownLabel(x.truth))
    case None => Failure(UnknownLabel(None))
  }

  /** The label at position `i` of the scale converts to `i`. */
  lemma TruthCodeOfPosition(x: Record, i: nat)
    requires i < |Both| && x.truth == Some(Both[i])
    ensures TruthCode(x) == Success(i)
  {
    ToIntIsPosition();
  }

  /** The statement text after `.strip().lower()` and deletion of punctuation. */
  function CleanStatement(s: string): (r: string)
    ensures forall i :: 0 <= i < |r| ==> !IsPunctuation(r[i]) && !IsUpper(r[i])
    ensures forall c :: !IsPunctuation(c) ==> multiset(r)[c] == multiset(Lower(Strip(s)))[c]
    ensures Subsequence(r, Lower(Strip(s)))
  {
    var lowered := Lower(Strip(s));
    RemovePunctuationNoUpper(lowered);
    RemovePunctuationSubsequence(lowered);
    forall c | !IsPunctuation(c)
      ensures multiset(RemovePunctuation(lowered))[c] == multiset(lowered)[c]
    {
      RemovePunctuationCounts(lowered, c);
    }
    RemovePunctuation(lowered)
  }

  /**
   * `_get_statement_and_strip`: the cleaned statement split on single spaces.
   * The tokens join back into the cleaned statement, there is one more token
   * than there are spaces, and each token is clean. data.py:166 misspells the
   * filtered string's name; the model splits the string built at line 164.
   */
  function StatementTokens(x: Record): (r: Result<seq<string>, Error>)
    ensures r.Success? <==> x.statement.Some?
    ensures r.Failure? ==> r.error == MissingStatement
    ensures r.Success? ==> Join(r.value, ' ') == CleanStatement(x.statement.value)
    ensures r.Success? ==> |r.value| == multiset(CleanStatement(x.statement.value))[' '] + 1
    ensures r.Success? ==> forall i :: 0 <= i < |r.value| ==> CleanToken(r.value[i])
  {
    match x.statement
    case None => Failure(MissingStatement)
    case Some(s) =>
      var c := CleanStatement(s);
      var tokens := Split(c, ' ');
      JoinSplit(c, ' ');
      assert forall i :: 0 <= i < |tokens| ==> CleanToken(tokens[i]) by {
        forall i | 0 <= i < |tokens|
          ensures CleanToken(tokens[i])
        {
          SplitFieldWithin(c, ' ', i);
          assert forall k :: 0 <= k < |tokens[i]| ==> tokens[i][k] in multiset(c);
        }
      }
      Success(tokens)
  }

  /** Splitting is undone by joining: clean tokens always come back from their own join. */
  lemma StatementTokensFromJoin(x: Record, tokens: seq<string>)
    requires x.statement.Some? && |tokens| >= 1
    requires forall i :: 0 <= i < |tokens| ==> CleanToken(tokens[i])
    requires CleanStatement(x.statement.value) == Join(tokens, ' ')
    ensures StatementTokens(x) == Success(tokens)
  {
    forall i | 0 <= i < |tokens|
      ensures ' ' !in tokens[i]
    {
      assert forall k :: 0 <= k < |tokens[i]| ==> tokens[i][k] != ' ';
    }
    SplitJoin(tokens, ' ');
  }

  /**
   * One element of `clean_data_and_split_statement`: the label is converted
   * before the statement is read, so a bad label is the error reported.
   */
  function CleanRecord(x: Record): (r: Result<Cleaned, Error>)
    ensures r.Success? <==> x.truth.Some? && x.truth.value in Both && x.statement.Some?
    ensures r.Success? ==> r.value.code < |Both| && Both[r.value.code] == x.truth.value
    ensures r.Success? ==> Join(r.value.tokens, ' ') == CleanStatement(x.statement.value)
    ensures r.Success? ==> |r.value.tokens| == multiset(CleanStatement(x.statement.value))[' '] + 1
    ensures r.Success? ==> forall i :: 0 <= i < |r.value.tokens| ==> CleanToken(r.value.tokens[i])
    ensures r.Failure? && TruthCode(x).Failure? ==> r.error == UnknownLabel(x.truth)
    ensures r.Failure? && TruthCode(x).Success? ==> r.error == MissingStatement
  {
    match TruthCode(x)
    case Failure(e) => Failure(e)
    case Success(code) =>
      match StatementTokens(x)
      case Failure(e) => Failure(e)
      case Success(tokens) => Success(Cleaned(code, tokens))
  }

  /**
   * `clean_data_and_split_statement`: one cleaned pair per record, in input
   * order; the first record that fails aborts the whole list with its error.
   */
  function CleanData(xs: seq<Record>): (r: Result<seq<Cleaned>, Error>)
    ensures r.Success? <==> forall i :: 0 <= i < |xs| ==> CleanRecord(xs[i]).Success?
    ensures r.Success? ==> |r.value| == |xs|
    ensures r.Success? ==> forall i :: 0 <= i < |xs| ==> Success(r.value[i]) == CleanRecord(xs[i])
    ensures r.Failure? ==> exists i :: 0 <= i < |xs| && Failure(r.error) == CleanRecord(xs[i])
                                       && forall j :: 0 <= j < i ==> CleanRecord(xs[j]).Success?
  {
    MapAll(CleanRecord, xs)
  }

  // ---------------------------------------------------------------------
  // all_words

  /** Every token of every statement. */
  ghost function WordsOf(cd: seq<Cleaned>): set<string> {
    set i, j | 0 <= i < |cd| && 0 <= j < |cd[i].tokens| :: cd[i].tokens[j]
  }

  /** The tokens met before position `j` of statement `i`, in statement-then-token order. */
  ghost function WordsBefore(cd: seq<Cleaned>, i: nat, j: nat): set<string> {
    set i', j' | 0 <= i' < |cd| && 0 <= j' < |cd[i'].tokens| && (i' < i || (i' == i && j' < j)) :: cd[i'].tokens[j']
  }

  /** Visiting token `j` of statement `i` adds exactly that token. */
  lemma WordsBeforeStep(cd: seq<Cleaned>, i: nat, j: nat)
    requires i < |cd| && j < |cd[i].tokens|
    ensures WordsBefore(cd, i, j + 1) == WordsBefore(cd, i, j) + {cd[i].tokens[j]}
  {
  }

  /** Finishing statement `i` is the same point as starting statement `i + 1`. */
  lemma WordsBeforeNext(cd: seq<Cleaned>, i: nat)
    requires i < |cd|
    ensures WordsBefore(cd, i + 1, 0) == WordsBefore(cd, i, |cd[i].tokens|)
  {
  }

  /** Past the last statement, every token has been met. */
  lemma WordsBeforeAll(cd: seq<Cleaned>)
    ensures WordsBefore(cd, |cd|, 0) == WordsOf(cd)
  {
  }

  /**
   * `all_words`: the set of all tokens, and the length of the longest token
   * (`None` stands for the `-inf` start value, kept when there is no token).
   * data.py:188 loops over `statement` instead of `statements`, and data.py:192
   * unions the set with a string; the model loops over the statements and adds
   * each token to the set.
   */
  method AllWords(cleanData: seq<Cleaned>) returns (words: set<string>, maxLen: Option<nat>)
    ensures words == WordsOf(cleanData)
    ensures maxLen.None? <==> words == {}
    ensures maxLen.Some? ==> forall w :: w in words ==> |w| <= maxLen.value
    ensures maxLen.Some? ==> exists w :: w in words && |w| == maxLen.value
  {
    var statements := seq(|cleanData|, i requires 0 <= i < |cleanData| => cleanData[i].tokens);
    words := {};
    maxLen := None;
    var i := 0;
    while i < |statements|
      invariant 0 <= i <= |statements|
      invariant words == WordsBefore(cleanData, i, 0)
      invariant maxLen.None? <==> words == {}
      invariant maxLen.Some? ==> forall w :: w in words ==> |w| <= maxLen.value
      invariant maxLen.Some? ==> exists w :: w in words && |w| == maxLen.value
    {
      var statement := statements[i];
      var j := 0;
      while j < |statement|
        invariant 0 <= j <= |statement|
        invariant words == WordsBefore(cleanData, i, j)
        invariant maxLen.None? <==> words == {}
        invariant maxLen.Some? ==> forall w :: w in words ==> |w| <= maxLen.value
        invariant maxLen.Some? ==> exists w :: w in words && |w| == maxLen.value
      {
        var word := statement[j];
        WordsBeforeStep(cleanData, i, j);
        words := words + {word};
        maxLen := Some(if maxLen.None? || |word| > maxLen.value then |word| else maxLen.value);
        j := j + 1;
      }
      WordsBeforeNext(cleanData, i);
      i := i + 1;
    }
    WordsBeforeAll(cleanData);
  }

  /** Every word of a cleaned corpus is a clean token. */
  lemma CleanedWordsAreClean(xs: seq<Record>)
    requires CleanData(xs).Success?
    ensures forall w :: w in WordsOf(CleanData(xs).value) ==> CleanToken(w)
  {
  }

  /** Every statement yields at least one token, so a non-empty corpus never leaves the maximum unset. */
  lemma CleanedCorpusHasWords(xs: seq<Record>)
    requires CleanData(xs).Success? && |xs| > 0
    ensures WordsOf(CleanData(xs).value) != {}
  {
    var cd := CleanData(xs).value;
    assert Success(cd[0]) == CleanRecord(xs[0]);
    var x := xs[0];
    assert StatementTokens(x).Success?;
    assert cd[0].tokens == StatementTokens(x).value;
    assert cd[0].tokens[0] in WordsOf(cd);
  }
}
