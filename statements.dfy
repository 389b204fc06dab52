/** The statement splitter of `run_cypher_file` (TP2/app/etl.py): split the
    file's text on ';', strip each piece, and keep the pieces that are
    neither empty nor start with a `//` comment. */
module Statements {

  /** The characters Python's `str.isspace()` accepts, which `str.strip()` removes. */
  predicate IsSpace(c: char)
  {
    c == ' ' || ('\t' <= c <= '\r') || ('\U{1C}' <= c <= '\U{1F}')
    || c == '\U{85}' || c == '\U{A0}' || c == '\U{1680}' || ('\U{2000}' <= c <= '\U{200A}')
    || c == '\U{2028}' || c == '\U{2029}' || c == '\U{202F}' || c == '\U{205F}' || c == '\U{3000}'
  }

  predicate AllSpace(s: string)
  {
    forall i :: 0 <= i < |s| ==> IsSpace(s[i])
  }

  /** `s.lstrip()`: the suffix left after dropping the leading whitespace. */
  function TrimStart(s: string): (r: string)
    ensures |r| <= |s| && r == s[|s| - |r|..]
    ensures r == [] || !IsSpace(r[0])
  {
    if s != [] && IsSpace(s[0]) then TrimStart(s[1..]) else s
  }

  /** `s.rstrip()`: the prefix left after dropping the trailing whitespace. */
  function TrimEnd(s: string): (r: string)
    ensures |r| <= |s| && r == s[..|r|]
    ensures r == [] || !IsSpace(r[|r| - 1])
  {
    if s != [] && IsSpace(s[|s| - 1]) then TrimEnd(s[..|s| - 1]) else s
  }

  /** What `lstrip` drops is whitespace. */
  lemma {:induction false} TrimStartDropsSpace(s: string)
    ensures AllSpace(s[..|s| - |TrimStart(s)|])
  {
    if s != [] && IsSpace(s[0]) {
      TrimStartDropsSpace(s[1..]);
      var k := |s| - |TrimStart(s)|;
      assert s[..k] == [s[0]] + s[1..][..k - 1];
    }
  }

  /** What `rstrip` drops is whitespace. */
  lemma {:induction false} TrimEndDropsSpace(s: string)
    ensures AllSpace(s[|TrimEnd(s)|..])
  {
    if s != [] && IsSpace(s[|s| - 1]) {
      TrimEndDropsSpace(s[..|s| - 1]);
      var k := |TrimEnd(s)|;
      assert s[k..] == s[..|s| - 1][k..] + [s[|s| - 1]];
    }
  }

  /** `s.strip()`. */
  function Strip(s: string): string
  {
    TrimEnd(TrimStart(s))
  }

  function StartsWith(s: string, prefix: string): bool
  {
    |prefix| <= |s| && s[..|prefix|] == prefix
  }

  /** `str.split(sep)`: the pieces between separators; never an empty list. */
  function Split(s: string, sep: char): (r: seq<string>)
    ensures |r| >= 1
    decreases |s|
  {
    if s == [] then [[]]
    else
      var rest := Split(s[1..], sep);
      if s[0] == sep then [[]] + rest else [[s[0]] + rest[0]] + rest[1..]
  }

  /** `sep.join(parts)`. */
  function Join(parts: seq<string>, sep: char): string
  {
    if |parts| == 0 then []
    else if |parts| == 1 then parts[0]
    else parts[0] + [sep] + Join(parts[1..], sep)
  }

  /** Kept by the comprehension: `q.strip()` is non-empty and not a `//` comment. */
  predicate Kept(q: string)
  {
    q != [] && !StartsWith(q, "//")
  }

  /** One piece's contribution to the comprehension. */
  function Keep(piece: string): seq<string>
  {
    if Kept(Strip(piece)) then [Strip(piece)] else []
  }

  /** `[q.strip() for q in pieces if q.strip() and not q.strip().startswith('//')]`. */
  function Select(pieces: seq<string>): seq<string>
  {
    if pieces == [] then [] else Keep(pieces[0]) + Select(pieces[1..])
  }

  /** Non-empty, stripped, free of ';' and not starting with `//`. */
  predicate Statement(q: string)
  {
    q != [] && !IsSpace(q[0]) && !IsSpace(q[|q| - 1]) && !StartsWith(q, "//") && ';' !in q
  }

  /** The statements `run_cypher_file` sends, in file order; each has the
      shape of a statement. */
  function SplitStatements(text: string): (r: seq<string>)
    ensures forall q :: q in r ==> Statement(q)
  {
    var pieces := Split(text, ';');
    SplitFree(text, ';');
    SelectShape(pieces);
    Select(pieces)
  }

  // ---- strip ----

  /** Stripping leaves nothing exactly when the text is all whitespace, keeps
      a contiguous middle of the text, and a second strip changes nothing. */
  lemma StripFacts(s: string)
    ensures Strip(s) == [] <==> AllSpace(s)
    ensures exists i, j :: 0 <= i <= j <= |s| && Strip(s) == s[i..j] && AllSpace(s[..i]) && AllSpace(s[j..])
    ensures Strip(Strip(s)) == Strip(s)
  {
    StripEmpty(s);
    StripMiddle(s);
    StripIdempotent(s);
  }

  lemma StripEmpty(s: string)
    ensures Strip(s) == [] <==> AllSpace(s)
  {
    var t := TrimStart(s);
    TrimStartDropsSpace(s);
    TrimEndDropsSpace(t);
    SpacesTrimAway(s);
    assert s == s[..|s| - |t|] + t;
    assert t[0..] == t;
    AllSpaceConcat(s[..|s| - |t|], t);
  }

  lemma StripMiddle(s: string)
    ensures exists i, j :: 0 <= i <= j <= |s| && Strip(s) == s[i..j] && AllSpace(s[..i]) && AllSpace(s[j..])
  {
    var t := TrimStart(s);
    var r := TrimEnd(t);
    var i := |s| - |t|;
    var j := i + |r|;
    assert s[i..j] == r;
    assert s[j..] == t[|r|..];
    TrimStartDropsSpace(s);
    TrimEndDropsSpace(t);
  }

  lemma StripIdempotent(s: string)
    ensures Strip(Strip(s)) == Strip(s)
  {
    var q := Strip(s);
    if q != [] {
      assert !IsSpace(q[0]) && !IsSpace(q[|q| - 1]);
      assert TrimStart(q) == q;
    }
  }

  lemma {:induction false} SpacesTrimAway(s: string)
    ensures AllSpace(s) ==> TrimStart(s) == []
  {
    if s != [] && IsSpace(s[0]) {
      SpacesTrimAway(s[1..]);
    }
  }

  // ---- split ----

  /** Joining the pieces with the separator gives back the text. */
  lemma {:induction false} SplitJoin(s: string, sep: char)
    ensures Join(Split(s, sep), sep) == s
    decreases |s|
  {
    if s != [] {
      var rest := Split(s[1..], sep);
      SplitJoin(s[1..], sep);
      if s[0] == sep {
        assert Split(s, sep) == [[]] + rest;
        assert ([[]] + rest)[1..] == rest;
      } else if |rest| > 1 {
        var r := Split(s, sep);
        assert r == [[s[0]] + rest[0]] + rest[1..];
        assert r[1..] == rest[1..];
        assert Join(rest, sep) == rest[0] + [sep] + Join(rest[1..], sep);
      }
    }
  }

  /** No piece contains the separator. */
  lemma {:induction false} SplitFree(s: string, sep: char)
    ensures forall i :: 0 <= i < |Split(s, sep)| ==> sep !in Split(s, sep)[i]
    decreases |s|
  {
    if s != [] {
      SplitFree(s[1..], sep);
      var rest := Split(s[1..], sep);
      if s[0] != sep {
        assert sep !in [s[0]] + rest[0];
      }
    }
  }

  /** Text without the separator is a single piece. */
  lemma {:induction false} SplitWithoutSep(s: string, sep: char)
    requires sep !in s
    ensures Split(s, sep) == [s]
    decreases |s|
  {
    if s != [] {
      SplitWithoutSep(s[1..], sep);
      assert [s[0]] + s[1..] == s;
    }
  }

  /** Splitting at a separator splits the two sides independently. */
  lemma {:induction false} SplitConcat(a: string, b: string, sep: char)
    ensures Split(a + [sep] + b, sep) == Split(a, sep) + Split(b, sep)
    decreases |a|
  {
    if a == [] {
      SplitCons(sep, b, sep);
      assert a + [sep] + b == [sep] + b;
    } else {
      SplitConcat(a[1..], b, sep);
      SplitConcatStep(a, b, sep);
    }
  }

  /** The inductive step of `SplitConcat`. */
  lemma SplitConcatStep(a: string, b: string, sep: char)
    requires a != []
    requires Split(a[1..] + [sep] + b, sep) == Split(a[1..], sep) + Split(b, sep)
    ensures Split(a + [sep] + b, sep) == Split(a, sep) + Split(b, sep)
  {
    var x, t, u := a[0], a[1..], a[1..] + [sep] + b;
    assert a + [sep] + b == [x] + u;
    assert a == [x] + t;
    SplitCons(x, u, sep);
    SplitCons(x, t, sep);
    if x == sep {
      SeqAssoc([[]], Split(t, sep), Split(b, sep));
    } else {
      HeadJoin([x], Split(t, sep), Split(b, sep));
    }
  }

  lemma SeqAssoc<T>(p: seq<T>, q: seq<T>, r: seq<T>)
    ensures p + (q + r) == (p + q) + r
  {
  }

  /** Extending the first piece of a list commutes with appending more pieces. */
  lemma HeadJoin(h: string, ra: seq<string>, rb: seq<string>)
    requires ra != []
    ensures [h + (ra + rb)[0]] + (ra + rb)[1..] == ([h + ra[0]] + ra[1..]) + rb
  {
    assert (ra + rb)[0] == ra[0];
    assert (ra + rb)[1..] == ra[1..] + rb;
  }

  /** One unfolding of `Split` at the front. */
  lemma SplitCons(x: char, t: string, sep: char)
    ensures x == sep ==> Split([x] + t, sep) == [[]] + Split(t, sep)
    ensures x != sep ==> Split([x] + t, sep) == [[x] + Split(t, sep)[0]] + Split(t, sep)[1..]
  {
    assert ([x] + t)[1..] == t;
  }

  // ---- the comprehension ----

  lemma {:induction false} SelectShape(pieces: seq<string>)
    requires forall i :: 0 <= i < |pieces| ==> ';' !in pieces[i]
    ensures forall q :: q in Select(pieces) ==> Statement(q)
  {
    if pieces != [] {
      SelectShape(pieces[1..]);
      StrippedPiece(pieces[0]);
      assert Select(pieces) == Keep(pieces[0]) + Select(pieces[1..]);
    }
  }

  /** A kept piece, stripped, has the shape of a statement. */
  lemma StrippedPiece(p: string)
    requires ';' !in p
    ensures Kept(Strip(p)) ==> Statement(Strip(p))
  {
    var t := TrimStart(p);
    var q := Strip(p);
    var i := |p| - |t|;
    assert q == p[i..i + |q|];
    SliceKeepsOut(p, i, i + |q|, ';');
    if q != [] {
      assert q[0] == t[0];
    }
  }

  /** A character absent from a text is absent from every slice of it. */
  lemma SliceKeepsOut(p: string, i: nat, j: nat, c: char)
    requires c !in p && i <= j <= |p|
    ensures c !in p[i..j]
  {
    forall k | 0 <= k < j - i ensures p[i..j][k] != c {
      assert p[i..j][k] == p[i + k];
    }
  }


  lemma {:induction false} SelectConcat(x: seq<string>, y: seq<string>)
    ensures Select(x + y) == Select(x) + Select(y)
  {
    if x == [] {
      assert x + y == y;
    } else {
      assert (x + y)[0] == x[0];
      assert (x + y)[1..] == x[1..] + y;
      calc {
        Select(x + y);
        Keep(x[0]) + Select(x[1..] + y);
        { SelectConcat(x[1..], y); }
        Keep(x[0]) + (Select(x[1..]) + Select(y));
        { SeqAssoc(Keep(x[0]), Select(x[1..]), Select(y)); }
        (Keep(x[0]) + Select(x[1..])) + Select(y);
        Select(x) + Select(y);
      }
    }
  }


  /** Every kept statement is a stripped piece of the text, and every piece
      whose stripped text is non-empty and not a comment is kept. */
  lemma {:induction false} SelectMembers(pieces: seq<string>)
    ensures forall q :: q in Select(pieces) ==> exists p :: p in pieces && q == Strip(p)
    ensures forall p :: p in pieces && Kept(Strip(p)) ==> Strip(p) in Select(pieces)
  {
    if pieces != [] {
      SelectMembers(pieces[1..]);
      forall q | q in Select(pieces) ensures exists p :: p in pieces && q == Strip(p) {
        if q in Select(pieces[1..]) {
          var p :| p in pieces[1..] && q == Strip(p);
          assert p in pieces;
        } else {
          assert q == Strip(pieces[0]);
        }
      }
      forall p | p in pieces && Kept(Strip(p)) ensures Strip(p) in Select(pieces) {
        if p != pieces[0] {
          assert p in pieces[1..];
        }
      }
    }
  }

  /** Statements are kept in file order: the statements of `a;b` are those of
      `a` followed by those of `b`. */
  lemma StatementsInOrder(a: string, b: string)
    ensures SplitStatements(a + ";" + b) == SplitStatements(a) + SplitStatements(b)
  {
    assert a + ";" + b == a + [';'] + b;
    SplitConcat(a, b, ';');
    SelectConcat(Split(a, ';'), Split(b, ';'));
  }

  /** The statements are exactly the kept stripped pieces of the text. */
  lemma StatementsOfPieces(text: string)
    ensures forall q :: q in SplitStatements(text) ==> exists p :: p in Split(text, ';') && q == Strip(p)
    ensures forall p :: p in Split(text, ';') && Kept(Strip(p)) ==> Strip(p) in SplitStatements(text)
  {
    SelectMembers(Split(text, ';'));
  }

  /** A text without `;` is one piece and yields exactly that piece's
      statement, once, or nothing; with `StatementsInOrder` this fixes the
      whole output, one statement per kept piece. */
  lemma OnePiece(p: string)
    requires ';' !in p
    ensures SplitStatements(p) == Keep(p)
  {
    SplitWithoutSep(p, ';');
    assert Select([p]) == Keep(p) + Select([]);
  }

  /** A piece whose stripped text starts with `//` is dropped whole, even when
      lines of code follow the comment line. */
  lemma CommentLedPieceDropped(piece: string)
    requires ';' !in piece && StartsWith(Strip(piece), "//")
    ensures SplitStatements(piece) == []
  {
    SplitWithoutSep(piece, ';');
    assert !Kept(Strip(piece));
    assert Select([piece]) == [] + Select([]);
  }

  // ---- a piece that opens with a comment line (see README, Findings) ----

  /** A line that is a `//` comment once its indentation is removed. */
  predicate IsCommentLine(line: string)
  {
    StartsWith(TrimStart(line), "//")
  }

  /** The lines that are not comment lines, in order. */
  function CodeLines(lines: seq<string>): seq<string>
  {
    if lines == [] then []
    else (if IsCommentLine(lines[0]) then [] else [lines[0]]) + CodeLines(lines[1..])
  }

  /** A piece with its comment lines removed, then stripped. */
  function CodeOf(piece: string): string
  {
    Strip(Join(CodeLines(Split(piece, '\n')), '\n'))
  }

  function SelectCode(pieces: seq<string>): seq<string>
  {
    if pieces == [] then []
    else (if CodeOf(pieces[0]) != [] then [CodeOf(pieces[0])] else []) + SelectCode(pieces[1..])
  }

  /** The splitter as evidently intended: comment lines are removed from each
      piece before the emptiness test, so a statement that follows a comment
      line is kept; each result still has the shape of a statement. */
  function SplitStatementsKeepingCode(text: string): (r: seq<string>)
    ensures forall q :: q in r ==> Statement(q)
  {
    var pieces := Split(text, ';');
    SplitFree(text, ';');
    SelectCodeShape(pieces);
    SelectCode(pieces)
  }

  lemma {:induction false} SelectCodeShape(pieces: seq<string>)
    requires forall i :: 0 <= i < |pieces| ==> ';' !in pieces[i]
    ensures forall q :: q in SelectCode(pieces) ==> Statement(q)
  {
    if pieces != [] {
      SelectCodeShape(pieces[1..]);
      CodeShape(pieces[0]);
    }
  }

  /** The code of a piece without ';' has the shape of a statement when it is non-empty. */
  lemma CodeShape(p: string)
    requires ';' !in p
    ensures CodeOf(p) != [] ==> Statement(CodeOf(p))
  {
    var lines := Split(p, '\n');
    var code := CodeLines(lines);
    var j := Join(code, '\n');
    SplitKeepsOut(p, '\n', ';');
    CodeLinesMembers(lines);
    JoinKeepsOut(code, '\n', ';');
    NoCommentStart(code);
    StrippedCode(j);
  }

  /** Stripping keeps a prefix of the left-stripped text. */
  lemma StrippedCode(j: string)
    requires ';' !in j && !StartsWith(TrimStart(j), "//")
    ensures Strip(j) != [] ==> Statement(Strip(j))
  {
    PrefixNoComment(TrimStart(j), Strip(j));
    StrippedPiece(j);
  }


  /** A character absent from the text is absent from every piece. */
  lemma {:induction false} SplitKeepsOut(s: string, sep: char, c: char)
    requires c !in s
    ensures forall piece :: piece in Split(s, sep) ==> c !in piece
    decreases |s|
  {
    if s != [] {
      assert c !in s[1..] by { assert forall k :: 0 <= k < |s| - 1 ==> s[1..][k] == s[k + 1]; }
      SplitKeepsOut(s[1..], sep, c);
    }
  }

  /** A character other than the separator absent from every part is absent from the join. */
  lemma {:induction false} JoinKeepsOut(parts: seq<string>, sep: char, c: char)
    requires c != sep
    requires forall p :: p in parts ==> c !in p
    ensures c !in Join(parts, sep)
  {
    if |parts| > 1 {
      assert parts[0] in parts;
      assert forall p :: p in parts[1..] ==> p in parts;
      JoinKeepsOut(parts[1..], sep, c);
    }
  }

  lemma {:induction false} CodeLinesMembers(lines: seq<string>)
    ensures forall l :: l in CodeLines(lines) <==> l in lines && !IsCommentLine(l)
  {
    if lines != [] {
      CodeLinesMembers(lines[1..]);
      assert forall l :: l in lines <==> l == lines[0] || l in lines[1..];
    }
  }

  /** Leading whitespace is skipped entirely. */
  lemma {:induction false} TrimStartPastSpace(x: string, y: string)
    requires AllSpace(x)
    ensures TrimStart(x + y) == TrimStart(y)
  {
    if x == [] {
      assert x + y == y;
    } else {
      assert (x + y)[0] == x[0];
      assert (x + y)[1..] == x[1..] + y;
      assert AllSpace(x[1..]) by { assert forall k :: 0 <= k < |x| - 1 ==> x[1..][k] == x[k + 1]; }
      TrimStartPastSpace(x[1..], y);
    }
  }

  /** Once a non-space character is reached, the rest is kept as is. */
  lemma {:induction false} TrimStartStopsEarly(x: string, y: string)
    requires !AllSpace(x)
    ensures TrimStart(x + y) == TrimStart(x) + y
  {
    assert (x + y)[0] == x[0];
    if IsSpace(x[0]) {
      assert (x + y)[1..] == x[1..] + y;
      assert !AllSpace(x[1..]) by {
        var k :| 0 <= k < |x| && !IsSpace(x[k]);
        assert x[1..][k - 1] == x[k];
      }
      TrimStartStopsEarly(x[1..], y);
    }
  }

  /** A non-comment text followed by a line break does not start a comment. */
  lemma NotCommentThenBreak(t: string, y: string)
    requires t != [] && !StartsWith(t, "//") && y != [] && y[0] == '\n'
    ensures !StartsWith(t + y, "//")
  {
    if |t| >= 2 {
      assert (t + y)[..2] == t[..2];
    } else {
      assert (t + y)[1] == '\n';
    }
  }

  /** Joined lines of which none is a comment line do not open with `//`. */
  lemma {:induction false} NoCommentStart(ls: seq<string>)
    requires forall l :: l in ls ==> !IsCommentLine(l)
    ensures !StartsWith(TrimStart(Join(ls, '\n')), "//")
  {
    if |ls| == 1 {
      assert ls[0] in ls;
    } else if |ls| > 1 {
      var l, rest := ls[0], Join(ls[1..], '\n');
      assert l in ls;
      assert Join(ls, '\n') == l + (['\n'] + rest);
      if AllSpace(l) {
        assert l + (['\n'] + rest) == (l + ['\n']) + rest;
        assert AllSpace(l + ['\n']);
        TrimStartPastSpace(l + ['\n'], rest);
        assert forall m :: m in ls[1..] ==> m in ls;
        NoCommentStart(ls[1..]);
      } else {
        TrimStartStopsEarly(l, ['\n'] + rest);
        NotCommentThenBreak(TrimStart(l), ['\n'] + rest);
      }
    }
  }

  /** Whitespace on both sides exactly when the whole is whitespace. */
  lemma AllSpaceConcat(a: string, b: string)
    ensures AllSpace(a + b) <==> AllSpace(a) && AllSpace(b)
  {
    if AllSpace(a + b) {
      assert forall k :: 0 <= k < |a| ==> a[k] == (a + b)[k];
      assert forall k :: 0 <= k < |b| ==> b[k] == (a + b)[|a| + k];
    }
  }

  /** All spaces exactly when every part and the separator are. */
  lemma {:induction false} JoinAllSpace(parts: seq<string>)
    ensures AllSpace(Join(parts, '\n')) <==> forall l :: l in parts ==> AllSpace(l)
  {
    if |parts| > 1 {
      JoinAllSpace(parts[1..]);
      var j := Join(parts, '\n');
      var rest := Join(parts[1..], '\n');
      assert j == parts[0] + (['\n'] + rest);
      assert forall l :: l in parts <==> l == parts[0] || l in parts[1..];
      AllSpaceConcat(parts[0], ['\n'] + rest);
      AllSpaceConcat(['\n'], rest);
    } else if |parts| == 1 {
      assert forall l :: l in parts <==> l == parts[0];
    }
  }

  /** The corrected splitter drops a piece exactly when every line of it is
      blank or a comment line. */
  lemma CodeOfEmpty(piece: string)
    ensures CodeOf(piece) == [] <==>
      forall l :: l in Split(piece, '\n') ==> AllSpace(l) || IsCommentLine(l)
  {
    var lines := Split(piece, '\n');
    StripFacts(Join(CodeLines(lines), '\n'));
    JoinAllSpace(CodeLines(lines));
    CodeLinesMembers(lines);
  }

  /** Without comment lines, every line is code. */
  lemma {:induction false} CodeLinesAll(lines: seq<string>)
    requires forall k :: 0 <= k < |lines| ==> !IsCommentLine(lines[k])
    ensures CodeLines(lines) == lines
  {
    if lines != [] {
      var first, rest := lines[0], lines[1..];
      assert !IsCommentLine(first);
      forall k | 0 <= k < |rest| ensures !IsCommentLine(rest[k]) {
        assert rest[k] == lines[k + 1];
      }
      CodeLinesAll(rest);
      assert CodeLines(lines) == [first] + rest;
      HeadTail(lines);
    }
  }

  lemma HeadTail<T>(s: seq<T>)
    requires s != []
    ensures [s[0]] + s[1..] == s
  {
  }

  /** A piece without comment lines contributes the same to both splitters. */
  lemma PieceWithoutComments(piece: string)
    requires forall l :: l in Split(piece, '\n') ==> !IsCommentLine(l)
    ensures CodeOf(piece) == Strip(piece)
    ensures Keep(piece) == (if CodeOf(piece) != [] then [CodeOf(piece)] else [])
  {
    var lines := Split(piece, '\n');
    assert forall k :: 0 <= k < |lines| ==> lines[k] in lines;
    CodeLinesAll(lines);
    SplitJoin(piece, '\n');
    assert CodeOf(piece) == Strip(piece);
    NoCommentStart(lines);
    assert !StartsWith(TrimStart(piece), "//");
    PrefixNoComment(TrimStart(piece), Strip(piece));
  }

  lemma PrefixNoComment(t: string, q: string)
    requires !StartsWith(t, "//") && |q| <= |t| && q == t[..|q|]
    ensures !StartsWith(q, "//")
  {
    if |q| >= 2 {
      assert q[..2] == t[..2];
    }
  }

  /** The two splitters agree on pieces without comment lines. */
  lemma {:induction false} SelectAgrees(pieces: seq<string>)
    requires forall p, l :: p in pieces && l in Split(p, '\n') ==> !IsCommentLine(l)
    ensures SelectCode(pieces) == Select(pieces)
  {
    if pieces != [] {
      assert pieces[0] in pieces;
      PieceWithoutComments(pieces[0]);
      assert forall p :: p in pieces[1..] ==> p in pieces;
      SelectAgrees(pieces[1..]);
    }
  }

  /** The correction changes nothing for a file without comment lines. */
  lemma AgreeWithoutComments(text: string)
    requires forall p, l :: p in Split(text, ';') && l in Split(p, '\n') ==> !IsCommentLine(l)
    ensures SplitStatementsKeepingCode(text) == SplitStatements(text)
  {
    SelectAgrees(Split(text, ';'));
  }

  /** The input that shows the difference: a statement preceded by a comment
      line is dropped by the splitter as written... */
  lemma CommentHeaderDropsStatement(head: string, code: string)
    requires head == "// seed" && code == "RETURN 1"
    ensures SplitStatements(head + ['\n'] + code) == []
  {
    var text := head + ['\n'] + code;
    assert ';' !in text by {
      assert ';' !in head && ';' !in code;
    }
    assert !IsSpace(text[0]) && !IsSpace(text[|text| - 1]);
    assert text[..2] == "//";
    CommentLedPieceDropped(text);
  }

  /** ...and kept, without its comment line, by the corrected one. */
  lemma CommentHeaderKeepsStatement(head: string, code: string)
    requires head == "// seed" && code == "RETURN 1"
    ensures SplitStatementsKeepingCode(head + ['\n'] + code) == [code]
  {
    var text := head + ['\n'] + code;
    assert ';' !in text by {
      assert ';' !in head && ';' !in code;
    }
    SplitWithoutSep(text, ';');
    ExampleSplitLines(head, code);
    CodeOfExample(head, code);
    assert SelectCode([text]) == [code] + SelectCode([]);
  }

  lemma ExampleSplitLines(head: string, code: string)
    requires head == "// seed" && code == "RETURN 1"
    ensures Split(head + ['\n'] + code, '\n') == [head, code]
  {
    SplitConcat(head, code, '\n');
    assert '\n' !in head && '\n' !in code;
    SplitWithoutSep(head, '\n');
    SplitWithoutSep(code, '\n');
  }

  lemma CodeOfExample(head: string, code: string)
    requires head == "// seed" && code == "RETURN 1"
    requires Split(head + ['\n'] + code, '\n') == [head, code]
    ensures CodeOf(head + ['\n'] + code) == code
  {
    ExampleLines(head, code);
    assert Join([code], '\n') == code;
    ExampleCodeStrips(code);
  }

  lemma ExampleLines(head: string, code: string)
    requires head == "// seed" && code == "RETURN 1"
    ensures CodeLines([head, code]) == [code]
  {
    ExampleHeadIsComment(head);
    ExampleCodeIsNot(code);
    assert [head, code][1..] == [code];
    assert CodeLines([code]) == [code] + CodeLines([]);
  }

  lemma ExampleHeadIsComment(head: string)
    requires head == "// seed"
    ensures IsCommentLine(head)
  {
    assert !IsSpace(head[0]);
    assert head[..2] == "//";
  }

  lemma ExampleCodeIsNot(code: string)
    requires code == "RETURN 1"
    ensures !IsCommentLine(code)
  {
    assert !IsSpace(code[0]);
    assert code[..2] == "RE";
  }

  lemma ExampleCodeStrips(code: string)
    requires code == "RETURN 1"
    ensures Strip(code) == code
  {
    assert !IsSpace(code[0]);
    assert !IsSpace(code[|code| - 1]);
  }
}
