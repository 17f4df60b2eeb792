/** The migration runner's statement splitter: semicolons outside `$$` quoting end a statement. */
module SqlSplitter {

  /** The characters String.prototype.trim removes (white space and line terminators). */
  predicate IsWhite(c: char) {
    || '\t' <= c <= '\r' || c == ' ' || c == '\U{a0}' || c == '\U{1680}' || '\U{2000}' <= c <= '\U{200a}'
    || c == '\U{2028}' || c == '\U{2029}' || c == '\U{202f}' || c == '\U{205f}' || c == '\U{3000}' || c == '\U{feff}'
  }

  function TrimStart(s: string): string {
    if s != [] && IsWhite(s[0]) then TrimStart(s[1..]) else s
  }

  function TrimEnd(s: string): string {
    if s != [] && IsWhite(s[|s| - 1]) then TrimEnd(s[..|s| - 1]) else s
  }

  function Trim(s: string): string { TrimEnd(TrimStart(s)) }

  /** The text without its white space. */
  function Visible(s: string): string {
    if s == [] then [] else (if IsWhite(s[0]) then [] else [s[0]]) + Visible(s[1..])
  }

  function Concat(pieces: seq<string>): string {
    if pieces == [] then [] else pieces[0] + Concat(pieces[1..])
  }

  function Join(pieces: seq<string>): string {
    if pieces == [] then []
    else if |pieces| == 1 then pieces[0]
    else pieces[0] + ";" + Join(pieces[1..])
  }

  // ---- Scanning: what a position inside or outside `$$` quoting means ----

  predicate AtDelimiter(s: string) { |s| >= 2 && s[0] == '$' && s[1] == '$' }

  /** Does `s`, entered with the given quoting, contain a semicolon outside quotes? */
  predicate HasTopLevelSemicolon(s: string, quoted: bool) {
    if s == [] then false
    else if AtDelimiter(s) then HasTopLevelSemicolon(s[2..], !quoted)
    else (!quoted && s[0] == ';') || HasTopLevelSemicolon(s[1..], quoted)
  }

  /** The quoting in force after `s`. */
  predicate QuotedAfter(s: string, quoted: bool) {
    if s == [] then quoted
    else if AtDelimiter(s) then QuotedAfter(s[2..], !quoted)
    else QuotedAfter(s[1..], quoted)
  }

  /** `s` without its top-level semicolons. */
  function WithoutSeparators(s: string, quoted: bool): string {
    if s == [] then []
    else if AtDelimiter(s) then "$$" + WithoutSeparators(s[2..], !quoted)
    else (if !quoted && s[0] == ';' then [] else [s[0]]) + WithoutSeparators(s[1..], quoted)
  }

  /** `p` is one whole statement text: nothing to split, and no quote left open. */
  predicate Closed(p: string) { !HasTopLevelSemicolon(p, false) && !QuotedAfter(p, false) }

  // ---- Specification: cut at the first top-level semicolon, and again in the rest ----

  function Pieces(s: string, quoted: bool): (r: seq<string>)
    ensures |r| >= 1 && r[0] <= s
  {
    if s == [] then [""]
    else if AtDelimiter(s) then
      var rest := Pieces(s[2..], !quoted);
      assert s == "$$" + s[2..];
      ["$$" + rest[0]] + rest[1..]
    else if !quoted && s[0] == ';' then [""] + Pieces(s[1..], false)
    else
      var rest := Pieces(s[1..], quoted);
      assert s == [s[0]] + s[1..];
      [[s[0]] + rest[0]] + rest[1..]
  }

  function Statements(pieces: seq<string>): seq<string> {
    if pieces == [] then []
    else (if Trim(pieces[0]) == [] then [] else [Trim(pieces[0])]) + Statements(pieces[1..])
  }

  function Split(sql: string): seq<string> { Statements(Pieces(sql, false)) }

  /** The pieces of what remains, when `current` has already been read of the first one. */
  ghost function Continue(current: string, pieces: seq<string>): seq<string>
    requires pieces != []
  {
    [current + pieces[0]] + pieces[1..]
  }

  lemma ContinueFurther(current: string, more: string, pieces: seq<string>)
    requires pieces != []
    ensures Continue(current, [more + pieces[0]] + pieces[1..]) == Continue(current + more, pieces)
  {
    assert current + (more + pieces[0]) == (current + more) + pieces[0];
  }

  lemma ContinueAfterCut(cut: seq<string>, current: string, rest: seq<string>)
    requires rest != []
    ensures cut + Continue(current, [""] + rest) == (cut + [current]) + Continue("", rest)
  {
    assert current + "" == current && ([""] + rest)[1..] == rest;
    assert "" + rest[0] == rest[0];
  }

  lemma {:induction false} StatementsSnoc(pieces: seq<string>, p: string)
    ensures Statements(pieces + [p]) == Statements(pieces) + (if Trim(p) == [] then [] else [Trim(p)])
  {
    if pieces == [] {
      assert pieces + [p] == [p];
      assert [p][1..] == [];
    } else {
      assert (pieces + [p])[1..] == pieces[1..] + [p];
      StatementsSnoc(pieces[1..], p);
    }
  }

  /** The single-pass loop. */
  method SplitSqlStatements(sql: string) returns (statements: seq<string>)
    ensures statements == Split(sql)
  {
    statements := [];
    var current := "";
    var inDollarQuote := false;
    var i := 0;
    ghost var cut: seq<string> := [];
    assert sql[0..] == sql;
    assert "" + Pieces(sql, false)[0] == Pieces(sql, false)[0];
    while i < |sql|
      invariant i <= |sql|
      invariant statements == Statements(cut)
      invariant Pieces(sql, false) == cut + Continue(current, Pieces(sql[i..], inDollarQuote))
    {
      if sql[i] == '$' && i + 1 < |sql| && sql[i + 1] == '$' {
        assert sql[i..][2..] == sql[i + 2..];
        ContinueFurther(current, "$$", Pieces(sql[i + 2..], !inDollarQuote));
        inDollarQuote := !inDollarQuote;
        current := current + "$$";
        i := i + 2;
        continue;
      }
      assert sql[i..][1..] == sql[i + 1..];
      if !inDollarQuote && sql[i] == ';' {
        var trimmed := Trim(current);
        if |trimmed| > 0 {
          statements := statements + [trimmed];
        }
        StatementsSnoc(cut, current);
        ContinueAfterCut(cut, current, Pieces(sql[i + 1..], false));
        cut := cut + [current];
        current := "";
        i := i + 1;
        continue;
      }
      ContinueFurther(current, [sql[i]], Pieces(sql[i + 1..], inDollarQuote));
      current := current + [sql[i]];
      i := i + 1;
    }
    var trailing := Trim(current);
    StatementsSnoc(cut, current);
    assert current + "" == current;
    assert Pieces(sql, false) == cut + [current];
    if |trailing| > 0 {
      statements := statements + [trailing];
    }
  }

  // ---- Trimming does not disturb scanning ----

  lemma {:induction false} ScanLeadingWhite(s: string, quoted: bool)
    ensures HasTopLevelSemicolon(TrimStart(s), quoted) == HasTopLevelSemicolon(s, quoted)
    ensures QuotedAfter(TrimStart(s), quoted) == QuotedAfter(s, quoted)
  {
    if s != [] && IsWhite(s[0]) { ScanLeadingWhite(s[1..], quoted); }
  }

  lemma {:induction false} ScanSnocWhite(s: string, c: char, quoted: bool)
    requires IsWhite(c)
    ensures HasTopLevelSemicolon(s + [c], quoted) == HasTopLevelSemicolon(s, quoted)
    ensures QuotedAfter(s + [c], quoted) == QuotedAfter(s, quoted)
    decreases |s|
  {
    if s == [] {
      assert (s + [c])[1..] == [];
    } else if AtDelimiter(s) {
      assert (s + [c])[2..] == s[2..] + [c];
      ScanSnocWhite(s[2..], c, !quoted);
    } else {
      assert !AtDelimiter(s + [c]);
      assert (s + [c])[1..] == s[1..] + [c];
      ScanSnocWhite(s[1..], c, quoted);
    }
  }

  lemma {:induction false} ScanTrim(s: string, quoted: bool)
    ensures HasTopLevelSemicolon(Trim(s), quoted) == HasTopLevelSemicolon(s, quoted)
    ensures QuotedAfter(Trim(s), quoted) == QuotedAfter(s, quoted)
  {
    ScanLeadingWhite(s, quoted);
    ScanTrailingWhite(TrimStart(s), quoted);
  }

  lemma {:induction false} ScanTrailingWhite(s: string, quoted: bool)
    ensures HasTopLevelSemicolon(TrimEnd(s), quoted) == HasTopLevelSemicolon(s, quoted)
    ensures QuotedAfter(TrimEnd(s), quoted) == QuotedAfter(s, quoted)
    decreases |s|
  {
    if s != [] && IsWhite(s[|s| - 1]) {
      var t := s[..|s| - 1];
      assert s == t + [s[|s| - 1]];
      ScanSnocWhite(t, s[|s| - 1], quoted);
      ScanTrailingWhite(t, quoted);
    }
  }

  predicate Trimmed(s: string) { s != [] ==> !IsWhite(s[0]) && !IsWhite(s[|s| - 1]) }

  lemma {:induction false} TrimEndTrims(s: string)
    ensures TrimEnd(s) <= s
    ensures TrimEnd(s) != [] ==> !IsWhite(TrimEnd(s)[|TrimEnd(s)| - 1])
    decreases |s|
  {
    if s != [] && IsWhite(s[|s| - 1]) { TrimEndTrims(s[..|s| - 1]); }
  }

  lemma {:induction false} TrimStartTrims(s: string)
    ensures TrimStart(s) != [] ==> !IsWhite(TrimStart(s)[0])
  {
    if s != [] && IsWhite(s[0]) { TrimStartTrims(s[1..]); }
  }

  lemma TrimTrims(s: string)
    ensures Trimmed(Trim(s))
    ensures Trimmed(s) ==> Trim(s) == s
  {
    TrimStartTrims(s);
    TrimEndTrims(TrimStart(s));
  }

  // ---- What the pieces are ----

  /** The first piece continues the current quoting, the others start unquoted;
      none has a top-level semicolon and only the last may leave a quote open. */
  lemma {:induction false} PiecesAreClosed(s: string, quoted: bool)
    ensures var r := Pieces(s, quoted);
            && !HasTopLevelSemicolon(r[0], quoted)
            && (|r| > 1 ==> !QuotedAfter(r[0], quoted))
            && (forall k | 1 <= k < |r| :: !HasTopLevelSemicolon(r[k], false))
            && (forall k | 1 <= k < |r| - 1 :: !QuotedAfter(r[k], false))
    decreases |s|
  {
    if s == [] {
    } else if AtDelimiter(s) {
      PiecesAreClosed(s[2..], !quoted);
      var rest := Pieces(s[2..], !quoted);
      assert ("$$" + rest[0])[2..] == rest[0];
    } else if !quoted && s[0] == ';' {
      PiecesAreClosed(s[1..], false);
    } else {
      PiecesAreClosed(s[1..], quoted);
      var rest := Pieces(s[1..], quoted);
      assert ([s[0]] + rest[0])[1..] == rest[0];
      assert !AtDelimiter([s[0]] + rest[0]);
    }
  }

  /** `outs` are trimmed statements, closed except perhaps the last. */
  ghost predicate StatementList(outs: seq<string>) {
    && (forall o | o in outs :: o != [] && Trimmed(o) && !HasTopLevelSemicolon(o, false))
    && (forall k | 0 <= k < |outs| - 1 :: Closed(outs[k]))
  }

  lemma {:induction false} StatementsOfPieces(pieces: seq<string>)
    requires forall p | p in pieces :: !HasTopLevelSemicolon(p, false)
    requires forall k | 0 <= k < |pieces| - 1 :: !QuotedAfter(pieces[k], false)
    ensures StatementList(Statements(pieces))
  {
    if pieces != [] {
      var p := pieces[0];
      var tail := pieces[1..];
      forall k | 0 <= k < |tail| - 1 ensures !QuotedAfter(tail[k], false) { assert tail[k] == pieces[k + 1]; }
      StatementsOfPieces(tail);
      TrimTrims(p);
      ScanTrim(p, false);
      if |pieces| == 1 { assert Statements(tail) == []; }
    }
  }

  /** Every output is a non-empty trimmed text without a top-level semicolon; only the last
      can leave a `$$` quote open. */
  lemma OutputsAreStatements(sql: string)
    ensures StatementList(Split(sql))
  {
    PiecesAreClosed(sql, false);
    var r := Pieces(sql, false);
    forall p | p in r ensures !HasTopLevelSemicolon(p, false) { }
    StatementsOfPieces(r);
  }

  // ---- Conservation ----

  lemma ConcatContinue(more: string, pieces: seq<string>)
    requires pieces != []
    ensures Concat(Continue(more, pieces)) == more + Concat(pieces)
  {
    assert Continue(more, pieces)[1..] == pieces[1..];
  }

  lemma {:induction false} ConcatPieces(s: string, quoted: bool)
    ensures Concat(Pieces(s, quoted)) == WithoutSeparators(s, quoted)
    decreases |s|
  {
    if s == [] {
      assert [""][1..] == [];
    } else if AtDelimiter(s) {
      ConcatPieces(s[2..], !quoted);
      ConcatContinue("$$", Pieces(s[2..], !quoted));
    } else if !quoted && s[0] == ';' {
      ConcatPieces(s[1..], false);
      assert Pieces(s, quoted)[1..] == Pieces(s[1..], false);
    } else {
      ConcatPieces(s[1..], quoted);
      ConcatContinue([s[0]], Pieces(s[1..], quoted));
    }
  }

  lemma {:induction false} VisibleConcat(a: string, b: string)
    ensures Visible(a + b) == Visible(a) + Visible(b)
  {
    if a == [] {
      assert a + b == b;
    } else {
      assert (a + b)[1..] == a[1..] + b;
      VisibleConcat(a[1..], b);
    }
  }

  lemma {:induction false} VisibleTrim(s: string)
    ensures Visible(Trim(s)) == Visible(s)
  {
    VisibleTrimStart(s);
    VisibleTrimEnd(TrimStart(s));
  }

  lemma {:induction false} VisibleTrimStart(s: string)
    ensures Visible(TrimStart(s)) == Visible(s)
  {
    if s != [] && IsWhite(s[0]) { VisibleTrimStart(s[1..]); }
  }

  lemma {:induction false} VisibleTrimEnd(s: string)
    ensures Visible(TrimEnd(s)) == Visible(s)
    decreases |s|
  {
    if s != [] && IsWhite(s[|s| - 1]) {
      var t := s[..|s| - 1];
      assert s == t + [s[|s| - 1]];
      VisibleConcat(t, [s[|s| - 1]]);
      VisibleTrimEnd(t);
    }
  }

  lemma {:induction false} VisibleStatements(pieces: seq<string>)
    ensures Visible(Concat(Statements(pieces))) == Visible(Concat(pieces))
  {
    if pieces != [] {
      var p, tail := pieces[0], pieces[1..];
      VisibleStatements(tail);
      VisibleTrim(p);
      VisibleConcat(p, Concat(tail));
      VisibleConcat(Trim(p), Concat(Statements(tail)));
      if Trim(p) != [] {
        assert Statements(pieces)[1..] == Statements(tail);
      } else {
        assert Statements(pieces) == Statements(tail);
        assert Visible(p) == [];
      }
    }
  }

  /** The outputs hold exactly the input's visible characters, in order, less the separators. */
  lemma OutputsConserveText(sql: string)
    ensures Visible(Concat(Split(sql))) == Visible(WithoutSeparators(sql, false))
  {
    VisibleStatements(Pieces(sql, false));
    ConcatPieces(sql, false);
  }

  // ---- Round trips ----

  lemma DropFromJoined(p: string, rest: string, k: nat)
    requires k <= |p|
    ensures (p + ";" + rest)[k..] == p[k..] + ";" + rest
  {
  }

  /** A closed text followed by a semicolon is cut off exactly there. */
  lemma {:induction false} PiecesAfterClosed(p: string, rest: string, quoted: bool)
    requires !HasTopLevelSemicolon(p, quoted) && !QuotedAfter(p, quoted)
    ensures Pieces(p + ";" + rest, quoted) == [p] + Pieces(rest, false)
    decreases |p|
  {
    var s := p + ";" + rest;
    if p == [] {
      assert s[0] == ';' && s[1..] == rest;
    } else if AtDelimiter(p) {
      DropFromJoined(p, rest, 2);
      PiecesAfterClosed(p[2..], rest, !quoted);
      assert "$$" + p[2..] == p;
    } else {
      assert !AtDelimiter(s);
      DropFromJoined(p, rest, 1);
      PiecesAfterClosed(p[1..], rest, quoted);
      assert [p[0]] + p[1..] == p;
    }
  }

  lemma {:induction false} PiecesOfUnsplit(p: string, quoted: bool)
    requires !HasTopLevelSemicolon(p, quoted)
    ensures Pieces(p, quoted) == [p]
    decreases |p|
  {
    if p == [] {
    } else if AtDelimiter(p) {
      PiecesOfUnsplit(p[2..], !quoted);
      assert "$$" + p[2..] == p;
    } else {
      PiecesOfUnsplit(p[1..], quoted);
      assert [p[0]] + p[1..] == p;
    }
  }

  lemma {:induction false} PiecesOfJoin(outs: seq<string>)
    requires StatementList(outs) && outs != []
    ensures Pieces(Join(outs), false) == outs
  {
    if |outs| == 1 {
      PiecesOfUnsplit(outs[0], false);
    } else {
      var tail := outs[1..];
      forall k | 0 <= k < |tail| - 1 ensures Closed(tail[k]) { assert tail[k] == outs[k + 1]; }
      assert Closed(outs[0]);
      PiecesOfJoin(tail);
      PiecesAfterClosed(outs[0], Join(tail), false);
    }
  }

  lemma {:induction false} StatementsOfTrimmed(outs: seq<string>)
    requires forall o | o in outs :: o != [] && Trimmed(o)
    ensures Statements(outs) == outs
  {
    if outs != [] {
      TrimTrims(outs[0]);
      forall o | o in outs[1..] ensures o != [] && Trimmed(o) { assert o in outs; }
      StatementsOfTrimmed(outs[1..]);
    }
  }

  /** Rejoining the outputs with semicolons and splitting again gives the same list. */
  lemma JoinThenSplit(sql: string)
    ensures Split(Join(Split(sql))) == Split(sql)
  {
    OutputsAreStatements(sql);
    var outs := Split(sql);
    if outs != [] { PiecesOfJoin(outs); }
    StatementsOfTrimmed(outs);
  }

  /** Every output, split on its own, is itself. */
  lemma OutputSplitsToItself(sql: string, k: nat)
    requires k < |Split(sql)|
    ensures Split(Split(sql)[k]) == [Split(sql)[k]]
  {
    OutputsAreStatements(sql);
    var o := Split(sql)[k];
    PiecesOfUnsplit(o, false);
    StatementsOfTrimmed([o]);
  }
}
