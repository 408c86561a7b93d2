/** Splitting and joining text, as the strings package does it. */
module Texts {

  function Join(parts: seq<string>, sep: char): string {
    if parts == [] then ""
    else if |parts| == 1 then parts[0]
    else parts[0] + [sep] + Join(parts[1..], sep)
  }

  /** The pieces between separators; the empty text is one empty piece. */
  function Split(s: string, sep: char): (pieces: seq<string>)
    ensures |pieces| > 0
  {
    if s == "" then [""]
    else
      var rest := Split(s[1..], sep);
      if s[0] == sep then [""] + rest else [[s[0]] + rest[0]] + rest[1..]
  }

  lemma {:induction false} PiecesHaveNoSeparator(s: string, sep: char)
    ensures forall i :: 0 <= i < |Split(s, sep)| ==> sep !in Split(s, sep)[i]
  {
    if s != "" { PiecesHaveNoSeparator(s[1..], sep); }
  }

  lemma {:induction false} SplitAfterPiece(p: string, rest: string, sep: char)
    requires sep !in p
    ensures Split(p + rest, sep) == [p + Split(rest, sep)[0]] + Split(rest, sep)[1..]
  {
    if p == "" {
      assert p + rest == rest;
      assert p + Split(rest, sep)[0] == Split(rest, sep)[0];
    } else {
      assert (p + rest)[1..] == p[1..] + rest;
      SplitAfterPiece(p[1..], rest, sep);
      assert [p[0]] + (p[1..] + Split(rest, sep)[0]) == p + Split(rest, sep)[0];
    }
  }

  lemma {:induction false} SplitJoined(parts: seq<string>, sep: char)
    requires parts != [] && forall i :: 0 <= i < |parts| ==> sep !in parts[i]
    ensures Split(Join(parts, sep), sep) == parts
  {
    var p := parts[0];
    if |parts| == 1 {
      SplitAfterPiece(p, "", sep);
      assert p + "" == p;
    } else {
      var rest := [sep] + Join(parts[1..], sep);
      assert rest[1..] == Join(parts[1..], sep);
      SplitJoined(parts[1..], sep);
      SplitAfterPiece(p, rest, sep);
      assert p + [sep] + Join(parts[1..], sep) == p + rest;
      assert Split(rest, sep) == [""] + parts[1..];
      assert p + "" == p;
    }
  }

  /** Joining lists end to end; with the two shortest lists this says what joining is. */
  lemma {:induction false} JoinConcat(a: seq<string>, b: seq<string>, sep: char)
    requires a != [] && b != []
    ensures Join(a + b, sep) == Join(a, sep) + [sep] + Join(b, sep)
  {
    if |a| == 1 {
      assert (a + b)[1..] == b;
    } else {
      assert (a + b)[1..] == a[1..] + b;
      JoinConcat(a[1..], b, sep);
      var p, q := Join(a[1..], sep), Join(b, sep);
      assert a[0] + [sep] + (p + [sep] + q) == (a[0] + [sep] + p) + [sep] + q;
    }
  }

  lemma JoinShort(p: string, sep: char)
    ensures Join([], sep) == "" && Join([p], sep) == p
  {
  }

  /** Joining undoes splitting, whatever the text. */
  lemma {:induction false} JoinSplit(s: string, sep: char)
    ensures Join(Split(s, sep), sep) == s
  {
    if s != "" {
      var rest := Split(s[1..], sep);
      JoinSplit(s[1..], sep);
      if s[0] == sep {
        assert Split(s, sep)[1..] == rest;
        assert s == "" + [sep] + s[1..];
      } else {
        var pieces := Split(s, sep);
        assert pieces[1..] == rest[1..] && pieces[0] == [s[0]] + rest[0];
        if |rest| == 1 {
          assert s == [s[0]] + rest[0];
        } else {
          assert s == [s[0]] + (rest[0] + [sep] + Join(rest[1..], sep));
        }
      }
    }
  }

  /** Splitting undoes joining exactly for a list that is not empty and has no separator in its parts. */
  lemma SplitJoinIff(parts: seq<string>, sep: char)
    ensures Split(Join(parts, sep), sep) == parts
       <==> parts != [] && forall i :: 0 <= i < |parts| ==> sep !in parts[i]
  {
    PiecesHaveNoSeparator(Join(parts, sep), sep);
    if parts != [] && forall i :: 0 <= i < |parts| ==> sep !in parts[i] {
      SplitJoined(parts, sep);
    }
  }

  // ---- White space ----

  /** The white space of Unicode. */
  predicate IsSpace(c: char) {
    || '\t' <= c <= '\r' || c == ' ' || c == '\U{85}' || c == '\U{A0}' || c == '\U{1680}'
    || '\U{2000}' <= c <= '\U{200A}' || c == '\U{2028}' || c == '\U{2029}' || c == '\U{202F}'
    || c == '\U{205F}' || c == '\U{3000}'
  }

  /** The 25 characters that Unicode lists as white space. */
  lemma SpacesAre(c: char)
    ensures IsSpace(c) <==>
              c in "\t\n\U{0B}\U{0C}\r \U{85}\U{A0}\U{1680}\U{2000}\U{2001}\U{2002}\U{2003}\U{2004}\U{2005}"
              || c in "\U{2006}\U{2007}\U{2008}\U{2009}\U{200A}\U{2028}\U{2029}\U{202F}\U{205F}\U{3000}"
  {
  }

  predicate Spaceless(s: string) {
    forall i :: 0 <= i < |s| ==> !IsSpace(s[i])
  }

  predicate Token(s: string) {
    s != "" && Spaceless(s)
  }

  /** The runs of text between white space; `word` is what has been read of the present run. */
  function FieldsFrom(s: string, word: string): seq<string> {
    if s == "" then (if word == "" then [] else [word])
    else if !IsSpace(s[0]) then FieldsFrom(s[1..], word + [s[0]])
    else if word == "" then FieldsFrom(s[1..], "")
    else [word] + FieldsFrom(s[1..], "")
  }

  function Fields(s: string): seq<string> {
    FieldsFrom(s, "")
  }

  lemma {:induction false} FieldsAreTokens(s: string, word: string)
    requires Spaceless(word)
    ensures forall i :: 0 <= i < |FieldsFrom(s, word)| ==> Token(FieldsFrom(s, word)[i])
  {
    if s != "" {
      if !IsSpace(s[0]) { FieldsAreTokens(s[1..], word + [s[0]]); } else { FieldsAreTokens(s[1..], ""); }
    }
  }

  lemma {:induction false} FieldsAfterWord(w: string, rest: string, word: string)
    requires Spaceless(w)
    ensures FieldsFrom(w + rest, word) == FieldsFrom(rest, word + w)
  {
    if w == "" {
      assert w + rest == rest && word + w == word;
    } else {
      assert (w + rest)[1..] == w[1..] + rest;
      FieldsAfterWord(w[1..], rest, word + [w[0]]);
      assert word + [w[0]] + w[1..] == word + w;
    }
  }

  // ---- Text as tokens and the white space around them ----

  predicate Blank(s: string) {
    forall i :: 0 <= i < |s| ==> IsSpace(s[i])
  }

  /** The tokens with the gaps before, between and after them. */
  function Spread(gaps: seq<string>, tokens: seq<string>): string
    requires |gaps| == |tokens| + 1
  {
    if tokens == [] then gaps[0] else gaps[0] + (tokens[0] + Spread(gaps[1..], tokens[1..]))
  }

  /** Gaps are white space, and only the first and the last may be empty. */
  ghost predicate Gaps(gaps: seq<string>) {
    (forall i :: 0 <= i < |gaps| ==> Blank(gaps[i])) && (forall i :: 0 < i < |gaps| - 1 ==> gaps[i] != "")
  }

  lemma {:induction false} FieldsAfterBlank(gap: string, rest: string)
    requires Blank(gap)
    ensures FieldsFrom(gap + rest, "") == FieldsFrom(rest, "")
  {
    if gap == "" {
      assert gap + rest == rest;
    } else {
      assert (gap + rest)[1..] == gap[1..] + rest;
      FieldsAfterBlank(gap[1..], rest);
    }
  }

  lemma FieldsAfterToken(t: string, gap: string, rest: string)
    requires Token(t) && Blank(gap) && (gap != "" || rest == "")
    ensures Fields(t + (gap + rest)) == [t] + Fields(rest)
  {
    FieldsAfterWord(t, gap + rest, "");
    assert "" + t == t;
    if gap == "" {
      assert gap + rest == "";
    } else {
      assert (gap + rest)[1..] == gap[1..] + rest;
      FieldsAfterBlank(gap[1..], rest);
    }
  }

  /** Whatever the white space before, between and after them, splitting gives the tokens. */
  lemma {:induction false} FieldsOfSpread(gaps: seq<string>, tokens: seq<string>)
    requires |gaps| == |tokens| + 1 && Gaps(gaps) && forall i :: 0 <= i < |tokens| ==> Token(tokens[i])
    ensures Fields(Spread(gaps, tokens)) == tokens
    decreases |tokens|
  {
    if tokens == [] {
      FieldsAfterBlank(gaps[0], "");
      assert gaps[0] + "" == gaps[0];
    } else {
      var rest := tokens[1..];
      FieldsAfterBlank(gaps[0], tokens[0] + Spread(gaps[1..], rest));
      var bare := [""] + gaps[2..];
      FieldsOfSpread(bare, rest);
      assert bare[1..] == gaps[1..][1..];
      var tail := if rest == [] then "" else rest[0] + Spread(gaps[1..][1..], rest[1..]);
      assert Spread(gaps[1..], rest) == gaps[1] + tail;
      assert Spread(bare, rest) == "" + tail == tail;
      FieldsAfterToken(tokens[0], gaps[1], tail);
    }
  }

  /** Every text is its tokens with some white space before, between and after them. */
  lemma {:induction false} SpreadOfFields(s: string, word: string) returns (gaps: seq<string>)
    requires Spaceless(word)
    ensures |gaps| == |FieldsFrom(s, word)| + 1 && Gaps(gaps) && Spread(gaps, FieldsFrom(s, word)) == word + s
    ensures word != "" ==> gaps[0] == ""
  {
    if s == "" {
      gaps := if word == "" then [""] else ["", ""];
      assert word + s == word;
    } else if !IsSpace(s[0]) {
      gaps := SpreadOfFields(s[1..], word + [s[0]]);
      assert (word + [s[0]]) + s[1..] == word + s;
    } else {
      var rest := SpreadOfFields(s[1..], "");
      var tokens := FieldsFrom(s[1..], "");
      var widened := [[s[0]] + rest[0]] + rest[1..];
      WiderGaps(rest, s[0]);
      WiderGap(rest, tokens, s[0]);
      assert [s[0]] + ("" + s[1..]) == s;
      if word == "" {
        gaps := widened;
        assert word + s == s;
      } else {
        gaps := [""] + widened;
        assert gaps[1..] == widened && ([word] + tokens)[1..] == tokens;
        assert "" + (word + s) == word + s;
      }
    }
  }

  lemma WiderGaps(gaps: seq<string>, c: char)
    requires gaps != [] && Gaps(gaps) && IsSpace(c)
    ensures Gaps([[c] + gaps[0]] + gaps[1..])
  {
    var first := [c] + gaps[0];
    var widened := [first] + gaps[1..];
    assert Blank(first);
    forall i | 0 <= i < |widened| ensures Blank(widened[i]) && (0 < i < |widened| - 1 ==> widened[i] != "") {
      if i > 0 { assert widened[i] == gaps[i] && Blank(gaps[i]); }
    }
  }

  lemma WiderGap(gaps: seq<string>, tokens: seq<string>, c: char)
    requires |gaps| == |tokens| + 1
    ensures Spread([[c] + gaps[0]] + gaps[1..], tokens) == [c] + Spread(gaps, tokens)
  {
    var widened := [[c] + gaps[0]] + gaps[1..];
    assert widened[1..] == gaps[1..];
    if tokens != [] {
      var rest := tokens[0] + Spread(gaps[1..], tokens[1..]);
      assert ([c] + gaps[0]) + rest == [c] + (gaps[0] + rest);
    }
  }

  /** Splitting at white space gives back any list of tokens joined by spaces. */
  lemma {:induction false} FieldsJoined(tokens: seq<string>)
    requires forall i :: 0 <= i < |tokens| ==> Token(tokens[i])
    ensures Fields(Join(tokens, ' ')) == tokens
  {
    if tokens != [] {
      var t := tokens[0];
      if |tokens| == 1 {
        FieldsAfterWord(t, "", "");
        assert t + "" == t && "" + t == t;
      } else {
        var rest := [' '] + Join(tokens[1..], ' ');
        assert rest[1..] == Join(tokens[1..], ' ');
        FieldsJoined(tokens[1..]);
        FieldsAfterWord(t, rest, "");
        assert "" + t == t;
        assert t + [' '] + Join(tokens[1..], ' ') == t + rest;
      }
    }
  }
}
