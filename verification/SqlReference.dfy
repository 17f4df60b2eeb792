/** What the splitter does, told with the characters of its input and output alone. */
module SqlReference {
  import opened SqlSplitter

  // ---- White space ----

  /** WhiteSpace and LineTerminator of ECMAScript. */
  const WHITE_SPACE :=
    "\t\n\U{b}\U{c}\r \U{a0}\U{1680}\U{2000}\U{2001}\U{2002}\U{2003}\U{2004}\U{2005}\U{2006}\U{2007}"
    + "\U{2008}\U{2009}\U{200a}\U{2028}\U{2029}\U{202f}\U{205f}\U{3000}\U{feff}"

  lemma WhiteIff(c: char)
    ensures IsWhite(c) <==> c in WHITE_SPACE
  {
    var w := WHITE_SPACE;
    assert w[0] == '\t' && w[1] == '\n' && w[2] == '\U{b}' && w[3] == '\U{c}' && w[4] == '\r' && w[5] == ' ';
    assert w[6] == '\U{a0}' && w[7] == '\U{1680}' && w[8] == '\U{2000}' && w[9] == '\U{2001}' && w[10] == '\U{2002}';
    assert w[11] == '\U{2003}' && w[12] == '\U{2004}' && w[13] == '\U{2005}' && w[14] == '\U{2006}';
    assert w[15] == '\U{2007}' && w[16] == '\U{2008}' && w[17] == '\U{2009}' && w[18] == '\U{200a}';
    assert w[19] == '\U{2028}' && w[20] == '\U{2029}' && w[21] == '\U{202f}' && w[22] == '\U{205f}';
    assert w[23] == '\U{3000}' && w[24] == '\U{feff}';
  }

  /** The characters outside the white space. */
  function Ink(s: string): string {
    if s == [] then [] else (if s[0] in WHITE_SPACE then [] else [s[0]]) + Ink(s[1..])
  }

  lemma {:induction false} VisibleIsInk(s: string)
    ensures Visible(s) == Ink(s)
  {
    if s != [] {
      WhiteIff(s[0]);
      VisibleIsInk(s[1..]);
    }
  }

  lemma {:induction false} TrimStartSpelled(s: string) returns (a: string)
    ensures s == a + TrimStart(s) && forall c | c in a :: c in WHITE_SPACE
  {
    if s != [] && IsWhite(s[0]) {
      WhiteIff(s[0]);
      a := TrimStartSpelled(s[1..]);
      a := [s[0]] + a;
      assert s == [s[0]] + s[1..];
    } else {
      a := "";
    }
  }

  lemma {:induction false} TrimEndSpelled(s: string) returns (b: string)
    ensures s == TrimEnd(s) + b && forall c | c in b :: c in WHITE_SPACE
  {
    if s != [] && IsWhite(s[|s| - 1]) {
      WhiteIff(s[|s| - 1]);
      b := TrimEndSpelled(s[..|s| - 1]);
      b := b + [s[|s| - 1]];
      assert s == s[..|s| - 1] + [s[|s| - 1]];
    } else {
      b := "";
    }
  }

  /** trim() takes white space off both ends, and all of it. */
  lemma TrimSpelled(s: string) returns (a: string, b: string)
    ensures s == a + (Trim(s) + b) && forall c | c in a || c in b :: c in WHITE_SPACE
    ensures Trim(s) != [] ==> Trim(s)[0] !in WHITE_SPACE && Trim(s)[|Trim(s)| - 1] !in WHITE_SPACE
  {
    a := TrimStartSpelled(s);
    b := TrimEndSpelled(TrimStart(s));
    TrimTrims(s);
    if Trim(s) != [] {
      WhiteIff(Trim(s)[0]);
      WhiteIff(Trim(s)[|Trim(s)| - 1]);
    }
  }

  // ---- Quoting ----

  /** How many dollar signs `s` ends in. */
  function Dollars(s: string): nat {
    if s == [] || s[|s| - 1] != '$' then 0 else Dollars(s[..|s| - 1]) + 1
  }

  /** How many `$$` delimiters `s` holds, read from the left: every second sign of a run of dollar signs ends one. */
  function Delimiters(s: string): nat {
    if s == [] then 0 else Delimiters(s[..|s| - 1]) + if s[|s| - 1] == '$' && Dollars(s) % 2 == 0 then 1 else 0
  }

  /** Position `i` holds a semicolon with an even number of delimiters before it. */
  predicate Separates(s: string, i: nat) { i < |s| && s[i] == ';' && Delimiters(s[..i]) % 2 == 0 }

  /** The text without these semicolons. */
  function Unseparated(s: string): string {
    if s == [] then []
    else
      var n := |s| - 1;
      Unseparated(s[..n]) + if Separates(s, n) then [] else [s[n]]
  }

  lemma DollarsSnoc(p: string, c: char)
    ensures Dollars(p + [c]) == if c == '$' then Dollars(p) + 1 else 0
  {
    assert (p + [c])[..|p|] == p;
  }

  lemma DelimitersSnoc(p: string, c: char)
    ensures Delimiters(p + [c]) == Delimiters(p) + if c == '$' && Dollars(p) % 2 == 1 then 1 else 0
  {
    DollarsSnoc(p, c);
    assert (p + [c])[..|p|] == p;
  }

  lemma UnseparatedSnoc(p: string, c: char)
    ensures Unseparated(p + [c]) == Unseparated(p) + if c == ';' && Delimiters(p) % 2 == 0 then [] else [c]
  {
    assert (p + [c])[..|p|] == p;
    assert Separates(p + [c], |p|) <==> c == ';' && Delimiters(p) % 2 == 0;
  }

  /** The scan is between tokens: no delimiter straddles this position. */
  predicate AtBoundary(p: string, s: string) { Dollars(p) % 2 == 0 || s == [] || s[0] != '$' }

  lemma TwoDollars(p: string)
    requires Dollars(p) % 2 == 0
    ensures Dollars(p + "$$") % 2 == 0 && Delimiters(p + "$$") == Delimiters(p) + 1
    ensures Unseparated(p + "$$") == Unseparated(p) + "$$"
  {
    var q := p + ['$'];
    assert p + "$$" == q + ['$'];
    DollarsSnoc(p, '$');
    DollarsSnoc(q, '$');
    DelimitersSnoc(p, '$');
    DelimitersSnoc(q, '$');
    UnseparatedSnoc(p, '$');
    UnseparatedSnoc(q, '$');
  }

  lemma NextBoundary(p: string, s: string)
    requires s != [] && !AtDelimiter(s) && AtBoundary(p, s)
    ensures AtBoundary(p + [s[0]], s[1..]) && p + s == (p + [s[0]]) + s[1..]
    ensures s[0] == '$' ==> Dollars(p) % 2 == 0
  {
    DollarsSnoc(p, s[0]);
  }

  lemma Regroup(kept: string, first: string, rest: string)
    ensures (kept + first) + rest == kept + (first + rest)
  {
  }

  /** What the scan of `s` after `p` leaves quoted. */
  lemma {:induction false} ScanQuotes(p: string, s: string)
    requires AtBoundary(p, s)
    ensures Delimiters(p + s) % 2 == 1 <==> QuotedAfter(s, Delimiters(p) % 2 == 1)
    decreases |s|
  {
    if s == [] {
      assert p + s == p;
    } else if AtDelimiter(s) {
      TwoDollars(p);
      assert s == "$$" + s[2..];
      Regroup(p, "$$", s[2..]);
      ScanQuotes(p + "$$", s[2..]);
    } else {
      NextBoundary(p, s);
      DelimitersSnoc(p, s[0]);
      ScanQuotes(p + [s[0]], s[1..]);
    }
  }

  /** What it removes. */
  lemma {:induction false} ScanRemoves(p: string, s: string)
    requires AtBoundary(p, s)
    ensures Unseparated(p + s) == Unseparated(p) + WithoutSeparators(s, Delimiters(p) % 2 == 1)
    decreases |s|
  {
    if s == [] {
      assert p + s == p;
    } else if AtDelimiter(s) {
      TwoDollars(p);
      assert s == "$$" + s[2..];
      Regroup(p, "$$", s[2..]);
      ScanRemoves(p + "$$", s[2..]);
      Regroup(Unseparated(p), "$$", WithoutSeparators(s[2..], Delimiters(p) % 2 == 0));
    } else {
      ScanRemovesPlain(p, s);
    }
  }

  lemma {:induction false} ScanRemovesPlain(p: string, s: string)
    requires s != [] && !AtDelimiter(s) && AtBoundary(p, s)
    ensures Unseparated(p + s) == Unseparated(p) + WithoutSeparators(s, Delimiters(p) % 2 == 1)
    decreases |s|, 0
  {
    var quoted := Delimiters(p) % 2 == 1;
    var kept := if s[0] == ';' && !quoted then [] else [s[0]];
    NextBoundary(p, s);
    DelimitersSnoc(p, s[0]);
    UnseparatedSnoc(p, s[0]);
    ScanRemoves(p + [s[0]], s[1..]);
    Regroup(Unseparated(p), kept, WithoutSeparators(s[1..], quoted));
  }

  lemma {:induction false} SeparatorsCount(s: string, quoted: bool)
    ensures |WithoutSeparators(s, quoted)| <= |s|
    ensures HasTopLevelSemicolon(s, quoted) <==> |WithoutSeparators(s, quoted)| < |s|
  {
    if s == [] {
    } else if AtDelimiter(s) {
      SeparatorsCount(s[2..], !quoted);
    } else {
      SeparatorsCount(s[1..], quoted);
    }
  }

  lemma {:induction false} UnseparatedCount(s: string)
    ensures |Unseparated(s)| <= |s|
    ensures |Unseparated(s)| < |s| <==> exists i :: Separates(s, i)
  {
    if s != [] {
      var n := |s| - 1;
      UnseparatedCount(s[..n]);
      forall i: nat | i < n ensures Separates(s, i) <==> Separates(s[..n], i) { assert s[..n][..i] == s[..i]; }
      if i :| Separates(s[..n], i) { assert Separates(s, i); }
      if i :| Separates(s, i) { assert i == n || Separates(s[..n], i); }
    }
  }

  lemma ScanAll(s: string)
    ensures WithoutSeparators(s, false) == Unseparated(s)
    ensures QuotedAfter(s, false) <==> Delimiters(s) % 2 == 1
  {
    assert "" + s == s && Unseparated("") == "" && Delimiters("") == 0;
    ScanQuotes("", s);
    ScanRemoves("", s);
    assert "" + WithoutSeparators(s, false) == WithoutSeparators(s, false);
  }

  /** The scan removes exactly the semicolons after an even number of delimiters, and finds one exactly when there is
      one; a text is left quoted exactly by an odd number. */
  lemma ScanIsCount(s: string)
    ensures WithoutSeparators(s, false) == Unseparated(s)
    ensures HasTopLevelSemicolon(s, false) <==> exists i :: Separates(s, i)
    ensures QuotedAfter(s, false) <==> Delimiters(s) % 2 == 1
  {
    ScanAll(s);
    SeparatorsCount(s, false);
    UnseparatedCount(s);
  }

  /** No output begins or ends with white space, none is empty, and none holds a semicolon after an even number of `$$`;
      only the last can hold an odd number of them. */
  lemma OutputsSpelled(sql: string, k: nat)
    requires k < |Split(sql)|
    ensures var o := Split(sql)[k];
            && o != [] && o[0] !in WHITE_SPACE && o[|o| - 1] !in WHITE_SPACE
            && (forall i | 0 <= i < |o| && o[i] == ';' :: Delimiters(o[..i]) % 2 == 1)
            && (k < |Split(sql)| - 1 ==> Delimiters(o) % 2 == 0)
  {
    var o := Split(sql)[k];
    OutputsAreStatements(sql);
    assert o in Split(sql);
    WhiteIff(o[0]);
    WhiteIff(o[|o| - 1]);
    ScanIsCount(o);
    forall i | 0 <= i < |o| && o[i] == ';' ensures Delimiters(o[..i]) % 2 == 1 { assert !Separates(o, i); }
  }

  /** The outputs hold exactly the characters of the input outside the white space, in order, less the semicolons after
      an even number of `$$`. */
  lemma OutputsConserveInk(sql: string)
    ensures Ink(Concat(Split(sql))) == Ink(Unseparated(sql))
  {
    OutputsConserveText(sql);
    VisibleIsInk(Concat(Split(sql)));
    VisibleIsInk(WithoutSeparators(sql, false));
    ScanIsCount(sql);
  }

  lemma {:induction false} StatementsConcat(a: seq<string>, b: seq<string>)
    ensures Statements(a + b) == Statements(a) + Statements(b)
  {
    if a == [] {
      assert a + b == b;
    } else {
      assert (a + b)[1..] == a[1..] + b;
      StatementsConcat(a[1..], b);
    }
  }

  /** A semicolon after an even number of `$$` cuts: what is before it and what is after it split independently. */
  lemma SplitAtSemicolon(p: string, rest: string)
    requires Delimiters(p) % 2 == 0
    ensures Split(p + ";" + rest) == Split(p) + Split(rest)
  {
    ScanIsCount(p);
    PiecesCut(p, rest, false);
    StatementsConcat(Pieces(p, false), Pieces(rest, false));
  }

  lemma FirstPiece(more: string, pieces: seq<string>, others: seq<string>)
    requires pieces != []
    ensures [more + (pieces + others)[0]] + (pieces + others)[1..] == ([more + pieces[0]] + pieces[1..]) + others
  {
  }

  lemma {:induction false} PiecesCut(p: string, rest: string, quoted: bool)
    requires !QuotedAfter(p, quoted)
    ensures Pieces(p + ";" + rest, quoted) == Pieces(p, quoted) + Pieces(rest, false)
    decreases |p|
  {
    var s := p + ";" + rest;
    if p == [] {
      assert s[0] == ';' && s[1..] == rest;
    } else if AtDelimiter(p) {
      DropFromJoined(p, rest, 2);
      PiecesCut(p[2..], rest, !quoted);
      FirstPiece("$$", Pieces(p[2..], !quoted), Pieces(rest, false));
    } else {
      PlainCut(p, rest, quoted);
    }
  }

  lemma {:induction false} PlainCut(p: string, rest: string, quoted: bool)
    requires p != [] && !AtDelimiter(p) && !QuotedAfter(p, quoted)
    ensures Pieces(p + ";" + rest, quoted) == Pieces(p, quoted) + Pieces(rest, false)
    decreases |p|, 0
  {
    var s := p + ";" + rest;
    assert !AtDelimiter(s) && s[0] == p[0];
    DropFromJoined(p, rest, 1);
    PiecesCut(p[1..], rest, quoted);
    if !quoted && p[0] == ';' {
      assert Pieces(s, quoted) == [""] + Pieces(s[1..], false);
    } else {
      FirstPiece([p[0]], Pieces(p[1..], quoted), Pieces(rest, false));
    }
  }
}
