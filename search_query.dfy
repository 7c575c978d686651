/** The two strings `getMatchingChildren` builds from a free-text search: the SQL
    pre-filter (`buildSQLQueryForSearch` with `fetchByOwner`) and the source of the
    regular expression that re-checks each candidate (`buildPatternFromSearchString`).
    Both split the search on whitespace runs and emit one fragment per token. */
module SearchQuery {
  import opened Text
  import opened JavaSplit

  const SelectHead: string := "SELECT child_json, synced FROM children WHERE ("
  const OrJoiner: string := " OR "
  const AltJoiner: string := "|"

  /** `fetchByOwner`: for an unverified user, an owner test ending in " AND ", spliced in
      front of the first token's clause with the user name as it is. The clauses are not
      parenthesised, so under SQL precedence (AND before OR) the owner test restricts only
      the first `child_json LIKE` and not the rest of the condition. */
  function FetchByOwner(userVerified: bool, userName: string): string
  {
    if !userVerified then OwnerClause(userName) else ""
  }

  function OwnerClause(userName: string): string
  {
    " child_owner = '" + userName + "' AND "
  }

  /** The pre-filter for one token: the token inside the JSON body or inside the id. */
  function LikeClause(token: string): string
  {
    "child_json LIKE '%" + token + "%' OR id LIKE '%" + token + "%'"
  }

  function LikeClauses(tokens: seq<string>): seq<string>
  {
    seq(|tokens|, k requires 0 <= k < |tokens| => LikeClause(tokens[k]))
  }

  /** The query for the tokens of a search: the head, the owner filter, the clauses
      joined by " OR ", and the closing parenthesis. */
  function SqlFor(tokens: seq<string>, userVerified: bool, userName: string): string
  {
    SelectHead + FetchByOwner(userVerified, userName) + Join(OrJoiner, LikeClauses(tokens)) + ")"
  }

  /** The query `buildSQLQueryForSearch` returns. */
  function SearchSql(searchString: string, userVerified: bool, userName: string): string
  {
    SqlFor(Split(searchString), userVerified, userName)
  }

  /** The regular expression for one token: the token, repeated, anywhere in the subject. */
  function Alternative(token: string): string
  {
    ".*(" + token + ")+.*"
  }

  function Alternatives(tokens: seq<string>): seq<string>
  {
    seq(|tokens|, k requires 0 <= k < |tokens| => Alternative(tokens[k]))
  }

  /** The pattern source for the tokens of a search: their alternatives joined by "|". */
  function PatternFor(tokens: seq<string>): string
  {
    Join(AltJoiner, Alternatives(tokens))
  }

  /** The source of the pattern `buildPatternFromSearchString` compiles (case-insensitively). */
  function PatternSource(searchString: string): string
  {
    PatternFor(Split(searchString))
  }

  /** `buildSQLQueryForSearch`: append the head, the owner filter, then each token's
      clause followed by " OR " unless it is the last, then the closing parenthesis. */
  method BuildSqlQueryForSearch(searchString: string, userVerified: bool, userName: string)
    returns (query: string)
    ensures query == SearchSql(searchString, userVerified, userName)
  {
    var head := SelectHead + FetchByOwner(userVerified, userName);
    var builder := head;
    var subQueries := Split(searchString);
    ghost var clauses := LikeClauses(subQueries);
    var i := 0;
    while i < |subQueries|
      invariant 0 <= i <= |subQueries|
      invariant builder == head + Join(OrJoiner, clauses[..i])
                          + (if 0 < i < |subQueries| then OrJoiner else "")
    {
      AppendPiece(head, OrJoiner, clauses, i);
      builder := builder + LikeClause(subQueries[i]);
      assert builder == head + Join(OrJoiner, clauses[..i + 1]);
      if i < |subQueries| - 1 {
        builder := builder + OrJoiner;
      }
      i := i + 1;
    }
    assert clauses[..i] == clauses;
    query := builder + ")";
  }

  /** `buildPatternFromSearchString`: each token's alternative, with "|" between them. */
  method BuildPatternFromSearchString(searchString: string) returns (pattern: string)
    ensures pattern == PatternSource(searchString)
  {
    var regexBuilder := "";
    var splitQuery := Split(searchString);
    ghost var alternatives := Alternatives(splitQuery);
    var i := 0;
    while i < |splitQuery|
      invariant 0 <= i <= |splitQuery|
      invariant regexBuilder == Join(AltJoiner, alternatives[..i])
                               + (if 0 < i < |splitQuery| then AltJoiner else "")
    {
      JoinStep(AltJoiner, alternatives, i);
      regexBuilder := regexBuilder + Alternative(splitQuery[i]);
      if i < |splitQuery| - 1 {
        regexBuilder := regexBuilder + AltJoiner;
      }
      i := i + 1;
    }
    assert alternatives[..i] == alternatives;
    pattern := regexBuilder;
  }

  /** Where the clause of token `k` begins in the query. */
  function ClauseStart(tokens: seq<string>, userVerified: bool, userName: string, k: nat): nat
    requires k <= |tokens|
  {
    |SelectHead| + |FetchByOwner(userVerified, userName)| + Offset(OrJoiner, LikeClauses(tokens), k)
  }

  /** Token `k`'s clause stands at `ClauseStart(.., k)`; unless it is the last, exactly
      one " OR " follows it and the next clause begins right after; the last clause is
      followed by the closing ")" alone. */
  lemma SqlClauseAt(tokens: seq<string>, userVerified: bool, userName: string, k: nat)
    requires k < |tokens|
    ensures var sql := SqlFor(tokens, userVerified, userName);
            var clause := LikeClause(tokens[k]);
            var at := ClauseStart(tokens, userVerified, userName, k);
            at + |clause| < |sql| && sql[at..at + |clause|] == clause &&
            (k + 1 < |tokens| ==>
               ClauseStart(tokens, userVerified, userName, k + 1) == at + |clause| + |OrJoiner| &&
               at + |clause| + |OrJoiner| <= |sql| &&
               sql[at + |clause|..at + |clause| + |OrJoiner|] == OrJoiner) &&
            (k + 1 == |tokens| ==> at + |clause| + 1 == |sql|)
  {
    var head := SelectHead + FetchByOwner(userVerified, userName);
    var clauses := LikeClauses(tokens);
    FramedJoinAt(head, OrJoiner, clauses, ")", k);
    assert clauses[k] == LikeClause(tokens[k]);
    assert SqlFor(tokens, userVerified, userName) == head + Join(OrJoiner, clauses) + ")";
    assert ClauseStart(tokens, userVerified, userName, k) == |head| + Offset(OrJoiner, clauses, k);
    if k + 1 < |tokens| {
      assert ClauseStart(tokens, userVerified, userName, k + 1) == |head| + Offset(OrJoiner, clauses, k + 1);
    }
  }

  /** The query opens with the SELECT head and the owner filter and closes with ")";
      with no token nothing stands between the two. */
  lemma SqlFrame(tokens: seq<string>, userVerified: bool, userName: string)
    ensures var sql := SqlFor(tokens, userVerified, userName);
            var head := SelectHead + FetchByOwner(userVerified, userName);
            |head| < |sql| && sql[..|head|] == head && sql[..|SelectHead|] == SelectHead &&
            sql[|sql| - 1] == ')' &&
            (tokens == [] <==> |sql| == |head| + 1)
  {
    if tokens != [] {
      SqlClauseAt(tokens, userVerified, userName, 0);
    }
    var head := SelectHead + FetchByOwner(userVerified, userName);
    var rest := Join(OrJoiner, LikeClauses(tokens)) + ")";
    assert SqlFor(tokens, userVerified, userName) == head + rest;
    SliceLeft(head, rest, 0, |head|);
    SliceLeft(head, rest, 0, |SelectHead|);
    SliceLeft(SelectHead, FetchByOwner(userVerified, userName), 0, |SelectHead|);
  }

  /** An unverified user's query has the owner filter right after the opening parenthesis. */
  lemma OwnerClausePresent(tokens: seq<string>, userName: string)
    ensures var sql := SqlFor(tokens, false, userName);
            var owner := OwnerClause(userName);
            |SelectHead| + |owner| <= |sql| && sql[|SelectHead|..|SelectHead| + |owner|] == owner
  {
    var owner := OwnerClause(userName);
    var rest := Join(OrJoiner, LikeClauses(tokens)) + ")";
    assert SqlFor(tokens, false, userName) == SelectHead + (owner + rest);
    SliceRight(SelectHead, owner + rest, 0, |owner|);
    SliceLeft(owner, rest, 0, |owner|);
  }

  /** A verified user's query has a clause or the ")" right after the opening parenthesis,
      and neither begins like the owner filter. */
  lemma OwnerClauseAbsent(tokens: seq<string>, userName: string)
    ensures var sql := SqlFor(tokens, true, userName);
            var owner := OwnerClause(userName);
            !(|SelectHead| + |owner| <= |sql| && sql[|SelectHead|..|SelectHead| + |owner|] == owner)
  {
    var sql := SqlFor(tokens, true, userName);
    var owner := OwnerClause(userName);
    assert owner[0] == ' ';
    var rest := Join(OrJoiner, LikeClauses(tokens)) + ")";
    assert sql == SelectHead + rest;
    if tokens == [] {
      assert |sql| == |SelectHead| + 1;
    } else {
      SqlClauseAt(tokens, true, userName, 0);
      var clause := LikeClause(tokens[0]);
      assert ClauseStart(tokens, true, userName, 0) == |SelectHead|;
      assert sql[|SelectHead|..|SelectHead| + |clause|][0] == clause[0] == 'c';
      if |SelectHead| + |owner| <= |sql| {
        assert sql[|SelectHead|..|SelectHead| + |owner|][0] == sql[|SelectHead|];
      }
    }
  }

  /** The owner filter stands right after the opening parenthesis exactly when the user
      is not verified. */
  lemma OwnerClauseIff(tokens: seq<string>, userVerified: bool, userName: string)
    ensures var sql := SqlFor(tokens, userVerified, userName);
            var owner := OwnerClause(userName);
            (|SelectHead| + |owner| <= |sql| && sql[|SelectHead|..|SelectHead| + |owner|] == owner)
              <==> !userVerified
  {
    if userVerified {
      OwnerClauseAbsent(tokens, userName);
    } else {
      OwnerClausePresent(tokens, userName);
    }
  }

  /** Where the alternative of token `k` begins in the pattern source. */
  function AlternativeStart(tokens: seq<string>, k: nat): nat
    requires k <= |tokens|
  {
    Offset(AltJoiner, Alternatives(tokens), k)
  }

  /** Token `k`'s alternative stands at `AlternativeStart(.., k)`; unless it is the last,
      exactly one "|" follows it and the next alternative begins right after; the last
      alternative ends the pattern. */
  lemma PatternAlternativeAt(tokens: seq<string>, k: nat)
    requires k < |tokens|
    ensures var pattern := PatternFor(tokens);
            var alt := Alternative(tokens[k]);
            var at := AlternativeStart(tokens, k);
            at + |alt| <= |pattern| && pattern[at..at + |alt|] == alt &&
            (k + 1 < |tokens| ==>
               AlternativeStart(tokens, k + 1) == at + |alt| + 1 &&
               at + |alt| < |pattern| && pattern[at + |alt|] == '|') &&
            (k + 1 == |tokens| ==> at + |alt| == |pattern|)
  {
    var alts := Alternatives(tokens);
    PieceAt(AltJoiner, alts, k);
    JoinLength(AltJoiner, alts);
    if k + 1 < |alts| {
      SeparatorAfter(AltJoiner, alts, k);
      var at := AlternativeStart(tokens, k);
      var pattern := PatternFor(tokens);
      assert pattern[at + |alts[k]|..at + |alts[k]| + 1][0] == pattern[at + |alts[k]|];
    }
  }

  /** An empty search is the single empty token: a clause and an alternative that every
      row and every string without a line terminator satisfy. */
  lemma EmptySearch(userVerified: bool, userName: string)
    ensures PatternSource("") == ".*()+.*"
    ensures SearchSql("", userVerified, userName)
              == SelectHead + FetchByOwner(userVerified, userName)
                 + "child_json LIKE '%%' OR id LIKE '%%')"
  {
    assert Split("") == [""];
    assert Alternatives([""]) == [Alternative("")];
    assert LikeClauses([""]) == [LikeClause("")];
    assert LikeClause("") + ")" == "child_json LIKE '%%' OR id LIKE '%%')";
  }

  /** The query with nothing inside its condition: `WHERE ()` for a verified user,
      `WHERE ( child_owner = '<user>' AND )` otherwise. SQLite cannot parse either. */
  function EmptyConditionSql(userVerified: bool, userName: string): string
  {
    SelectHead + FetchByOwner(userVerified, userName) + ")"
  }

  /** The builder produces the query with an empty condition exactly for a search of
      whitespace only. */
  lemma EmptyConditionIff(searchString: string, userVerified: bool, userName: string)
    ensures SearchSql(searchString, userVerified, userName) == EmptyConditionSql(userVerified, userName)
            <==> searchString != "" && AllWhitespace(searchString)
  {
    var tokens := Split(searchString);
    SplitEmptyIff(searchString);
    SqlFrame(tokens, userVerified, userName);
    if tokens == [] {
      assert Join(OrJoiner, LikeClauses(tokens)) == "";
    }
  }

  /** A search of whitespace only has no token at all: the SQL condition is empty, "()",
      and the pattern source is the empty string. */
  lemma BlankSearch(searchString: string, userVerified: bool, userName: string)
    requires searchString != "" && AllWhitespace(searchString)
    ensures PatternSource(searchString) == ""
    ensures SearchSql(searchString, userVerified, userName)
              == SelectHead + FetchByOwner(userVerified, userName) + ")"
  {
    SplitEmptyIff(searchString);
  }

  /** With two tokens or more, the first token's clause opens the condition and " OR "
      follows it. */
  lemma FirstClause(tokens: seq<string>, userVerified: bool, userName: string)
    requires |tokens| >= 2
    ensures var sql := SqlFor(tokens, userVerified, userName);
            var at := |SelectHead| + |FetchByOwner(userVerified, userName)|;
            var clause := LikeClause(tokens[0]);
            at + |clause| + |OrJoiner| <= |sql| &&
            sql[at..at + |clause|] == clause &&
            sql[at + |clause|..at + |clause| + |OrJoiner|] == OrJoiner
  {
    SqlClauseAt(tokens, userVerified, userName, 0);
    assert ClauseStart(tokens, userVerified, userName, 0)
           == |SelectHead| + |FetchByOwner(userVerified, userName)|;
  }

  /** Whitespace in front of a search that is not blank adds the empty token first: its
      clause, which every row satisfies, opens the condition and " OR " follows it. */
  lemma LeadingWhitespaceClause(searchString: string, userVerified: bool, userName: string)
    requires searchString != "" && IsWhitespace(searchString[0]) && !AllWhitespace(searchString)
    ensures |Split(searchString)| >= 2 && Split(searchString)[0] == ""
    ensures var sql := SearchSql(searchString, userVerified, userName);
            var at := |SelectHead| + |FetchByOwner(userVerified, userName)|;
            at + |LikeClause("")| + |OrJoiner| <= |sql| &&
            sql[at..at + |LikeClause("")|] == LikeClause("") &&
            sql[at + |LikeClause("")|..at + |LikeClause("")| + |OrJoiner|] == OrJoiner
  {
    LeadingWhitespaceToken(searchString);
    var tokens := Split(searchString);
    assert SearchSql(searchString, userVerified, userName) == SqlFor(tokens, userVerified, userName);
    assert LikeClause(tokens[0]) == LikeClause("");
    FirstClause(tokens, userVerified, userName);
  }

  /** The same for the pattern: the empty token's alternative `.*()+.*`, which every
      string without a line terminator matches, comes first and "|" follows it. */
  lemma LeadingWhitespaceAlternative(searchString: string)
    requires searchString != "" && IsWhitespace(searchString[0]) && !AllWhitespace(searchString)
    ensures var pattern := PatternSource(searchString);
            |Alternative("")| < |pattern| &&
            pattern[..|Alternative("")|] == Alternative("") && pattern[|Alternative("")|] == '|'
  {
    LeadingWhitespaceToken(searchString);
    var tokens := Split(searchString);
    PatternAlternativeAt(tokens, 0);
    assert AlternativeStart(tokens, 0) == 0;
    var pattern := PatternFor(tokens);
    assert pattern[..|Alternative("")|] == pattern[0..|Alternative("")|];
  }
}
