/** Character classes, splitting, trimming and joining of strings, as the class pane
    uses them from JavaScript's `String.prototype`. */
module Text {

  /** The characters matched by the regular-expression class `\s` and removed by
      `String.prototype.trim`: WhiteSpace and LineTerminator of ECMAScript
      (sections 11.2 and 11.3 of ECMA-262), the space first. */
  const WhitespaceChars: string :=
    " \t\n\U{000B}\U{000C}\r\U{00A0}\U{1680}"
    + "\U{2000}\U{2001}\U{2002}\U{2003}\U{2004}\U{2005}\U{2006}\U{2007}\U{2008}\U{2009}\U{200A}"
    + "\U{2028}\U{2029}\U{202F}\U{205F}\U{3000}\U{FEFF}"

  /** `c` occurs in the table `table`, looked up one entry at a time. */
  predicate InTable(c: char, table: string) {
    table != [] && (table[0] == c || InTable(c, table[1..]))
  }

  predicate IsWhitespace(c: char) {
    InTable(c, WhitespaceChars)
  }

  /** The two single-character separators the pane splits on: `/\s/` for a live
      `class` attribute and `/[.,\s]/` for text typed into the prompt. */
  datatype Delimiters = Whitespace | ClassSeparators

  predicate IsDelimiter(d: Delimiters, c: char) {
    IsWhitespace(c) || (d == ClassSeparators && (c == '.' || c == ','))
  }

  predicate NoDelimiter(d: Delimiters, s: string) {
    forall i :: 0 <= i < |s| ==> !IsDelimiter(d, s[i])
  }

  /** A class name: non-empty and free of the delimiters of `d`. */
  predicate IsClassName(d: Delimiters, s: string) {
    s != "" && NoDelimiter(d, s)
  }

  /** `/^\s*$/.test(s)`, devtools' `String.prototype.isWhitespace`. */
  predicate IsBlank(s: string) {
    forall i :: 0 <= i < |s| ==> IsWhitespace(s[i])
  }

  /** The delimiter characters of `s`, in order. */
  function DelimitersOf(d: Delimiters, s: string): seq<char> {
    if s == [] then []
    else (if IsDelimiter(d, s[0]) then [s[0]] else []) + DelimitersOf(d, s[1..])
  }

  /** Puts `pieces` back together with `seps` between consecutive pieces. */
  function Weave(pieces: seq<string>, seps: seq<char>): string
    requires |pieces| == |seps| + 1
  {
    if seps == [] then pieces[0]
    else pieces[0] + [seps[0]] + Weave(pieces[1..], seps[1..])
  }

  lemma WeaveCons(c: char, pieces: seq<string>, seps: seq<char>)
    requires |pieces| == |seps| + 1
    ensures Weave([[c] + pieces[0]] + pieces[1..], seps) == [c] + Weave(pieces, seps)
  {
    var p := [[c] + pieces[0]] + pieces[1..];
    assert p[0] == [c] + pieces[0];
    if seps != [] {
      assert p[1..] == pieces[1..];
      var tail := Weave(pieces[1..], seps[1..]);
      calc {
        Weave(p, seps);
        p[0] + [seps[0]] + tail;
        ([c] + pieces[0]) + [seps[0]] + tail;
        [c] + (pieces[0] + [seps[0]] + tail);
      }
    }
  }

  /** `s.split(re)` for a regular expression `re` matching one delimiter character:
      the maximal delimiter-free pieces between delimiters, empty ones included. */
  function Split(d: Delimiters, s: string): (pieces: seq<string>)
    ensures pieces != []
  {
    if s == [] then [""]
    else
      var rest := Split(d, s[1..]);
      if IsDelimiter(d, s[0]) then [""] + rest
      else [[s[0]] + rest[0]] + rest[1..]
  }

  /** Splitting is the inverse of weaving the pieces back with the delimiters: one
      more piece than delimiters. */
  lemma {:induction false} SplitWeave(d: Delimiters, s: string)
    ensures |Split(d, s)| == |DelimitersOf(d, s)| + 1
    ensures Weave(Split(d, s), DelimitersOf(d, s)) == s
  {
    if s != [] {
      SplitWeave(d, s[1..]);
      var rest := Split(d, s[1..]);
      assert s == [s[0]] + s[1..];
      if !IsDelimiter(d, s[0]) {
        assert DelimitersOf(d, s) == DelimitersOf(d, s[1..]);
        WeaveCons(s[0], rest, DelimitersOf(d, s[1..]));
      }
    }
  }

  /** No piece of a split holds a delimiter. */
  lemma {:induction false} SplitPiecesFree(d: Delimiters, s: string)
    ensures forall i :: 0 <= i < |Split(d, s)| ==> NoDelimiter(d, Split(d, s)[i])
  {
    if s != [] {
      SplitPiecesFree(d, s[1..]);
      var rest := Split(d, s[1..]);
      if !IsDelimiter(d, s[0]) {
        assert NoDelimiter(d, [s[0]] + rest[0]) by {
          assert NoDelimiter(d, rest[0]);
        }
      }
    }
  }

  /** A leading non-delimiter joins the first piece. */
  lemma SplitCons(d: Delimiters, c: char, t: string)
    requires !IsDelimiter(d, c)
    ensures Split(d, [c] + t) == [[c] + Split(d, t)[0]] + Split(d, t)[1..]
  {
    assert ([c] + t)[1..] == t;
  }

  /** Splitting a delimiter-free prefix glues it to the first piece of the rest. */
  lemma {:induction false} SplitPrefix(d: Delimiters, a: string, t: string)
    requires NoDelimiter(d, a)
    ensures Split(d, a + t) == [a + Split(d, t)[0]] + Split(d, t)[1..]
  {
    var pieces := Split(d, t);
    if a == [] {
      assert a + t == t;
      assert a + pieces[0] == pieces[0];
      assert pieces == [pieces[0]] + pieces[1..];
    } else {
      assert a + t == [a[0]] + (a[1..] + t);
      assert !IsDelimiter(d, a[0]);
      SplitCons(d, a[0], a[1..] + t);
      SplitPrefix(d, a[1..], t);
      var rest := Split(d, a[1..] + t);
      assert rest[0] == a[1..] + pieces[0];
      assert rest[1..] == pieces[1..];
      assert [a[0]] + (a[1..] + pieces[0]) == a + pieces[0];
    }
  }

  /** `String.prototype.trimStart`. */
  function TrimStart(s: string): string {
    if s != [] && IsWhitespace(s[0]) then TrimStart(s[1..]) else s
  }

  /** `String.prototype.trimEnd`. */
  function TrimEnd(s: string): string {
    if s != [] && IsWhitespace(s[|s| - 1]) then TrimEnd(s[..|s| - 1]) else s
  }

  /** `String.prototype.trim`. */
  function Trim(s: string): string {
    TrimEnd(TrimStart(s))
  }

  /** Trimming the start drops a blank prefix: what is left is a suffix of `s` that is
      empty or starts with a non-whitespace character, and it is empty exactly when `s`
      is blank. */
  lemma {:induction false} TrimStartShape(s: string)
    ensures |TrimStart(s)| <= |s| && TrimStart(s) == s[|s| - |TrimStart(s)|..]
    ensures TrimStart(s) != [] ==> !IsWhitespace(TrimStart(s)[0])
    ensures TrimStart(s) == [] <==> IsBlank(s)
  {
    if s != [] && IsWhitespace(s[0]) {
      TrimStartShape(s[1..]);
      assert IsBlank(s) <==> IsBlank(s[1..]) by {
        if IsBlank(s[1..]) {
          forall i | 0 <= i < |s| ensures IsWhitespace(s[i]) {
            if i > 0 { assert s[i] == s[1..][i - 1]; }
          }
        }
      }
    }
  }

  /** Trimming the end drops a blank suffix: what is left is a prefix of `s` that is
      empty or ends with a non-whitespace character, and a string that starts with a
      non-whitespace character keeps it. */
  lemma {:induction false} TrimEndShape(s: string)
    ensures |TrimEnd(s)| <= |s| && TrimEnd(s) == s[..|TrimEnd(s)|]
    ensures TrimEnd(s) != [] ==> !IsWhitespace(TrimEnd(s)[|TrimEnd(s)| - 1])
    ensures s != [] && !IsWhitespace(s[0]) ==> TrimEnd(s) != []
  {
    if s != [] && IsWhitespace(s[|s| - 1]) {
      var t := s[..|s| - 1];
      TrimEndShape(t);
      assert t[..|TrimEnd(t)|] == s[..|TrimEnd(t)|];
      if s != [] && !IsWhitespace(s[0]) {
        assert t != [] && t[0] == s[0];
      }
    }
  }

  /** A string trims to empty exactly when it is blank, and a non-empty trim has no
      whitespace at either end. */
  lemma TrimShape(s: string)
    ensures Trim(s) == [] <==> IsBlank(s)
    ensures Trim(s) != [] ==> !IsWhitespace(Trim(s)[0]) && !IsWhitespace(Trim(s)[|Trim(s)| - 1])
  {
    TrimStartShape(s);
    var r := TrimStart(s);
    TrimEndShape(r);
    if TrimEnd(r) != [] {
      assert TrimEnd(r)[0] == r[0];
    }
  }

  lemma NoDelimiterNoWhitespace(d: Delimiters, s: string)
    requires NoDelimiter(d, s)
    ensures NoDelimiter(Whitespace, s)
  {
    forall i | 0 <= i < |s| ensures !IsDelimiter(Whitespace, s[i]) {
      assert !IsDelimiter(d, s[i]);
    }
  }

  /** Trimming leaves a string without whitespace as it is. */
  lemma TrimNoWhitespace(s: string)
    requires NoDelimiter(Whitespace, s)
    ensures Trim(s) == s
  {
    if s != [] {
      assert !IsDelimiter(Whitespace, s[0]) && !IsDelimiter(Whitespace, s[|s| - 1]);
    }
  }

  /** `xs.map(x => x.trim())`. */
  function TrimAll(xs: seq<string>): (r: seq<string>)
    ensures |r| == |xs|
  {
    if xs == [] then [] else [Trim(xs[0])] + TrimAll(xs[1..])
  }

  /** Pieces cut at delimiters, which include all whitespace, need no trimming. */
  lemma {:induction false} TrimAllPieces(d: Delimiters, xs: seq<string>)
    requires forall i :: 0 <= i < |xs| ==> NoDelimiter(d, xs[i])
    ensures TrimAll(xs) == xs
  {
    if xs != [] {
      NoDelimiterNoWhitespace(d, xs[0]);
      TrimNoWhitespace(xs[0]);
      TrimAllPieces(d, xs[1..]);
      assert xs == [xs[0]] + xs[1..];
    }
  }

  /** `xs.filter(x => x.length)`: the non-empty strings of `xs`, in order. */
  function NonEmpty(xs: seq<string>): (r: seq<string>)
    ensures |r| <= |xs|
  {
    if xs == [] then []
    else if xs[0] == "" then NonEmpty(xs[1..])
    else [xs[0]] + NonEmpty(xs[1..])
  }

  /** Filtering keeps exactly the non-empty strings. */
  lemma {:induction false} NonEmptyMembers(xs: seq<string>)
    ensures forall s :: s in NonEmpty(xs) <==> s in xs && s != ""
  {
    if xs != [] {
      NonEmptyMembers(xs[1..]);
      assert xs == [xs[0]] + xs[1..];
    }
  }

  /** Filtering a sequence of non-empty strings changes nothing. */
  lemma {:induction false} NonEmptyKeepsAll(xs: seq<string>)
    requires forall i :: 0 <= i < |xs| ==> xs[i] != ""
    ensures NonEmpty(xs) == xs
  {
    if xs != [] {
      NonEmptyKeepsAll(xs[1..]);
      assert xs == [xs[0]] + xs[1..];
    }
  }

  /** The class tokens of `s`: the non-empty pieces of its split. */
  function ClassTokens(d: Delimiters, s: string): seq<string> {
    NonEmpty(Split(d, s))
  }

  /** `s.split(re).map(x => x.trim()).filter(x => x.length)`, the pipeline of
      `_splitTextIntoClasses` (with the separators `[.,\s]`) and of the attribute parse
      in `_nodeClasses` (with `\s`): the trim step has nothing to remove from a piece
      cut at whitespace, so the pipeline yields exactly the class tokens. */
  function SplitIntoClasses(d: Delimiters, s: string): (tokens: seq<string>)
    ensures tokens == ClassTokens(d, s)
  {
    SplitPiecesFree(d, s);
    TrimAllPieces(d, Split(d, s));
    NonEmpty(TrimAll(Split(d, s)))
  }

  /** The tokens are exactly the non-empty pieces of the split, and each is a class
      name free of the delimiters. */
  lemma ClassTokensMembers(d: Delimiters, s: string)
    ensures forall t :: t in ClassTokens(d, s) <==> t != "" && t in Split(d, s)
    ensures forall i :: 0 <= i < |ClassTokens(d, s)| ==> IsClassName(d, ClassTokens(d, s)[i])
  {
    var pieces := Split(d, s);
    SplitPiecesFree(d, s);
    NonEmptyMembers(pieces);
    var tokens := NonEmpty(pieces);
    forall i | 0 <= i < |tokens| ensures IsClassName(d, tokens[i]) {
      assert tokens[i] in pieces;
    }
  }

  /** `xs.join(sep)`. */
  function Join(xs: seq<string>, sep: char): string {
    if xs == [] then ""
    else if |xs| == 1 then xs[0]
    else xs[0] + [sep] + Join(xs[1..], sep)
  }

  /** Splitting on whitespace undoes joining whitespace-free strings with a space. */
  lemma {:induction false} SplitJoin(xs: seq<string>)
    requires xs != []
    requires forall i :: 0 <= i < |xs| ==> NoDelimiter(Whitespace, xs[i])
    ensures Split(Whitespace, Join(xs, ' ')) == xs
  {
    if |xs| == 1 {
      SplitPrefix(Whitespace, xs[0], "");
      assert xs[0] + "" == xs[0];
    } else {
      var rest := Join(xs[1..], ' ');
      SplitJoin(xs[1..]);
      assert Join(xs, ' ') == xs[0] + ([' '] + rest);
      SplitPrefix(Whitespace, xs[0], [' '] + rest);
      assert ([' '] + rest)[1..] == rest;
      assert Split(Whitespace, [' '] + rest) == [""] + xs[1..];
      assert xs[0] + "" == xs[0];
      assert xs == [xs[0]] + xs[1..];
    }
  }

  /** Reading a `class` attribute back: the value written by joining class names with
      a space parses, under the attribute's whitespace split, into exactly those names. */
  lemma AttributeRoundTrip(xs: seq<string>)
    requires forall i :: 0 <= i < |xs| ==> IsClassName(Whitespace, xs[i])
    ensures ClassTokens(Whitespace, Join(xs, ' ')) == xs
  {
    if xs == [] {
      EmptyHasNoTokens(Whitespace);
    } else {
      SplitJoin(xs);
      NonEmptyKeepsAll(xs);
    }
  }

  /** The empty string has no class tokens. */
  lemma EmptyHasNoTokens(d: Delimiters)
    ensures ClassTokens(d, "") == []
  {
    assert Split(d, "") == [""];
    assert NonEmpty([""]) == [];
  }
}
