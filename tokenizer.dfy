/** The text normaliser `preprocessText`: lower-case the text, delete every
    character outside `[a-zA-Z0-9\s]`, split on runs of whitespace and drop
    the empty pieces. */
module Tokenizer {

  /** Java's regular-expression class `\s`: space, tab, line feed, vertical
      tab, form feed and carriage return ('\t' .. '\r' are code points 9..13). */
  predicate IsSpace(c: char) {
    c == ' ' || '\t' <= c <= '\r'
  }

  predicate IsAsciiLetter(c: char) {
    'a' <= c <= 'z' || 'A' <= c <= 'Z'
  }

  predicate IsDigit(c: char) {
    '0' <= c <= '9'
  }

  /** A character a token may hold. */
  predicate IsTokenChar(c: char) {
    'a' <= c <= 'z' || IsDigit(c)
  }

  /** A well-formed token: non-empty, lower-case ASCII letters and digits only. */
  predicate IsToken(t: string) {
    |t| > 0 && forall i :: 0 <= i < |t| ==> IsTokenChar(t[i])
  }

  /** `toLowerCase` on the ASCII range. */
  function ToLower(c: char): char {
    if 'A' <= c <= 'Z' then (c as int + 32) as char else c
  }

  function Lower(s: string): (r: string)
    ensures |r| == |s|
    ensures forall i :: 0 <= i < |r| ==> !('A' <= r[i] <= 'Z')
    ensures forall i :: 0 <= i < |s| && !('A' <= s[i] <= 'Z') ==> r[i] == s[i]
    ensures forall i :: 0 <= i < |s| && 'A' <= s[i] <= 'Z' ==> r[i] as int == s[i] as int + 32
  {
    seq(|s|, i requires 0 <= i < |s| => ToLower(s[i]))
  }

  /** `replace(Regex("[^a-zA-Z0-9\\s]"), "")`: keep letters, digits and whitespace. */
  function Strip(s: string): (r: string)
    ensures |r| <= |s|
    ensures forall i :: 0 <= i < |r| ==> IsAsciiLetter(r[i]) || IsDigit(r[i]) || IsSpace(r[i])
  {
    if s == [] then []
    else (if IsAsciiLetter(s[0]) || IsDigit(s[0]) || IsSpace(s[0]) then [s[0]] else []) + Strip(s[1..])
  }

  /** The ASCII letters and digits of `text`, lower-cased, in order. */
  function LettersAndDigits(text: string): string {
    if text == [] then []
    else (if IsAsciiLetter(text[0]) || IsDigit(text[0]) then [ToLower(text[0])] else [])
         + LettersAndDigits(text[1..])
  }

  function Clean(text: string): string {
    Strip(Lower(text))
  }

  /** Drops the whitespace run at the front of `s`. */
  function SkipSpaces(s: string): (r: string)
    ensures |r| <= |s|
    ensures s != [] && IsSpace(s[0]) ==> |r| < |s|
  {
    if s != [] && IsSpace(s[0]) then SkipSpaces(s[1..]) else s
  }

  /** `split("\\s+".toRegex())`: the pieces between maximal whitespace runs,
      with an empty piece before a leading run and after a trailing one. */
  function Fields(s: string): (r: seq<string>)
    ensures |r| > 0
    decreases |s|
  {
    if s == [] then [""]
    else if IsSpace(s[0]) then [""] + Fields(SkipSpaces(s))
    else
      var f := Fields(s[1..]);
      [[s[0]] + f[0]] + f[1..]
  }

  /** `filter { it.isNotEmpty() }` */
  function NonEmpty(fs: seq<string>): (r: seq<string>)
    ensures |r| <= |fs|
    ensures forall i :: 0 <= i < |r| ==> r[i] != ""
  {
    if fs == [] then []
    else (if fs[0] == "" then [] else [fs[0]]) + NonEmpty(fs[1..])
  }

  /** `preprocessText(text)` */
  function Tokens(text: string): (ts: seq<string>)
    ensures forall i :: 0 <= i < |ts| ==> ts[i] != ""
  {
    NonEmpty(Fields(Clean(text)))
  }

  function Concat(ts: seq<string>): string {
    if ts == [] then "" else ts[0] + Concat(ts[1..])
  }

  function RemoveSpaces(s: string): string {
    if s == [] then ""
    else (if IsSpace(s[0]) then "" else [s[0]]) + RemoveSpaces(s[1..])
  }

  /** The tokens written out again, separated by single spaces. */
  function Join(ts: seq<string>): string {
    if ts == [] then ""
    else if |ts| == 1 then ts[0]
    else ts[0] + " " + Join(ts[1..])
  }

  // ---------------------------------------------------------------------
  // What the cleaning step leaves

  lemma {:induction false} StripKeeps(s: string)
    ensures forall c :: c in Strip(s) ==> c in s && (IsAsciiLetter(c) || IsDigit(c) || IsSpace(c))
  {
    if s != [] {
      StripKeeps(s[1..]);
    }
  }

  /** After cleaning, only lower-case letters, digits and whitespace remain. */
  lemma CleanChars(text: string)
    ensures forall c :: c in Clean(text) ==> IsTokenChar(c) || IsSpace(c)
  {
    StripKeeps(Lower(text));
    forall c | c in Clean(text) ensures IsTokenChar(c) || IsSpace(c) {
      var i :| 0 <= i < |Lower(text)| && Lower(text)[i] == c;
    }
  }

  // ---------------------------------------------------------------------
  // Splitting

  lemma {:induction false} FieldsChars(s: string)
    ensures forall f, c :: f in Fields(s) && c in f ==> c in s && !IsSpace(c)
    decreases |s|
  {
    if s == [] {
    } else if IsSpace(s[0]) {
      FieldsChars(SkipSpaces(s));
      SkipSpacesSuffix(s);
    } else {
      FieldsChars(s[1..]);
    }
  }

  /** What `SkipSpaces` leaves is a suffix, and so holds nothing new. */
  lemma {:induction false} SkipSpacesSuffix(s: string)
    ensures forall c :: c in SkipSpaces(s) ==> c in s
  {
    if s != [] && IsSpace(s[0]) {
      SkipSpacesSuffix(s[1..]);
    }
  }

  lemma {:induction false} NonEmptyKeeps(fs: seq<string>)
    ensures forall t :: t in NonEmpty(fs) ==> t in fs && t != ""
  {
    if fs != [] {
      NonEmptyKeeps(fs[1..]);
    }
  }

  /** Every token is non-empty and made of lower-case ASCII letters and digits
      only; in particular no token holds whitespace. */
  lemma TokensAreWellFormed(text: string)
    ensures forall t :: t in Tokens(text) ==> IsToken(t)
  {
    var s := Clean(text);
    CleanChars(text);
    FieldsChars(s);
    NonEmptyKeeps(Fields(s));
    forall t | t in Tokens(text) ensures IsToken(t) {
      forall i | 0 <= i < |t| ensures IsTokenChar(t[i]) {
        assert t[i] in t;
      }
    }
  }

  lemma {:induction false} NonEmptyOfEmpties(fs: seq<string>)
    requires forall i :: 0 <= i < |fs| ==> fs[i] == ""
    ensures NonEmpty(fs) == []
  {
    if fs != [] {
      NonEmptyOfEmpties(fs[1..]);
    }
  }

  /** A text with no ASCII letter or digit, the empty text among them, has
      no tokens. */
  lemma TokensOfSymbols(text: string)
    requires forall i :: 0 <= i < |text| ==> !IsAsciiLetter(text[i]) && !IsDigit(text[i])
    ensures Tokens(text) == []
  {
    var s := Clean(text);
    StripKeeps(Lower(text));
    assert forall c :: c in s ==> IsSpace(c) by {
      forall c | c in s ensures IsSpace(c) {
        var i :| 0 <= i < |Lower(text)| && Lower(text)[i] == c;
      }
    }
    forall i | 0 <= i < |s|
      ensures IsSpace(s[i])
    {
      assert s[i] in s;
    }
    if s != [] {
      SkipAllSpaces(s);
      assert Fields(s) == ["", ""];
    }
    NonEmptyOfEmpties(Fields(s));
  }

  lemma {:induction false} SkipAllSpaces(s: string)
    requires forall i :: 0 <= i < |s| ==> IsSpace(s[i])
    ensures SkipSpaces(s) == []
  {
    if s != [] {
      SkipAllSpaces(s[1..]);
    }
  }

  // ---------------------------------------------------------------------
  // No character is lost: the tokens, concatenated, are the cleaned text
  // without its whitespace.

  lemma {:induction false} RemoveSpacesSkip(s: string)
    ensures RemoveSpaces(SkipSpaces(s)) == RemoveSpaces(s)
  {
    if s != [] && IsSpace(s[0]) {
      RemoveSpacesSkip(s[1..]);
    }
  }

  lemma ConcatCons(t: string, ts: seq<string>)
    ensures Concat([t] + ts) == t + Concat(ts)
  {
    assert ([t] + ts)[1..] == ts;
  }

  lemma {:induction false} ConcatFields(s: string)
    ensures Concat(Fields(s)) == RemoveSpaces(s)
    decreases |s|
  {
    if s == [] {
    } else if IsSpace(s[0]) {
      ConcatFields(SkipSpaces(s));
      RemoveSpacesSkip(s);
      ConcatCons("", Fields(SkipSpaces(s)));
    } else {
      var f := Fields(s[1..]);
      ConcatFields(s[1..]);
      assert f == [f[0]] + f[1..];
      ConcatCons(f[0], f[1..]);
      ConcatCons([s[0]] + f[0], f[1..]);
      assert Fields(s) == [[s[0]] + f[0]] + f[1..];
      assert RemoveSpaces(s) == [s[0]] + RemoveSpaces(s[1..]);
    }
  }

  lemma {:induction false} ConcatNonEmpty(fs: seq<string>)
    ensures Concat(NonEmpty(fs)) == Concat(fs)
  {
    if fs != [] {
      ConcatNonEmpty(fs[1..]);
      var rest := NonEmpty(fs[1..]);
      if fs[0] != "" {
        assert NonEmpty(fs) == [fs[0]] + rest;
        assert ([fs[0]] + rest)[1..] == rest;
      } else {
        assert NonEmpty(fs) == [] + rest == rest;
      }
    }
  }

  /** Every letter and digit of the cleaned text lands in exactly one token,
      in the original order. */
  lemma TokensCoverText(text: string)
    ensures Concat(Tokens(text)) == RemoveSpaces(Clean(text))
  {
    ConcatFields(Clean(text));
    ConcatNonEmpty(Fields(Clean(text)));
  }

  /** The replacement works character by character. */
  lemma {:induction false} StripAppend(a: string, b: string)
    ensures Strip(a + b) == Strip(a) + Strip(b)
  {
    if a == [] {
      assert a + b == b;
    } else {
      assert (a + b)[0] == a[0] && (a + b)[1..] == a[1..] + b;
      StripAppend(a[1..], b);
    }
  }

  /** One character is kept exactly when it is a letter, a digit or whitespace. */
  lemma StripSingle(c: char)
    ensures Strip([c]) == if IsAsciiLetter(c) || IsDigit(c) || IsSpace(c) then [c] else []
  {
    assert [c][1..] == [];
  }

  /** Lower-casing, deleting symbols and dropping whitespace leaves the
      letters and digits of the text, lower-cased, in order. */
  lemma {:induction false} CleanWithoutSpaces(text: string)
    ensures RemoveSpaces(Clean(text)) == LettersAndDigits(text)
  {
    if text != [] {
      var c := text[0];
      var d := ToLower(c);
      assert Lower(text) == [d] + Lower(text[1..]);
      StripAppend([d], Lower(text[1..]));
      StripSingle(d);
      CleanWithoutSpaces(text[1..]);
      var rest := Strip(Lower(text[1..]));
      if IsAsciiLetter(c) || IsDigit(c) {
        assert Clean(text) == [d] + rest;
        assert ([d] + rest)[1..] == rest;
      } else {
        assert d == c;
        if IsSpace(c) {
          assert Clean(text) == [c] + rest;
          assert ([c] + rest)[1..] == rest;
        } else {
          assert Clean(text) == rest;
        }
      }
    }
  }

  /** No letter or digit of the text is lost or reordered: the tokens,
      concatenated, are its letters and digits, lower-cased, in order. */
  lemma TokensSpellText(text: string)
    ensures Concat(Tokens(text)) == LettersAndDigits(text)
  {
    TokensCoverText(text);
    CleanWithoutSpaces(text);
  }

  /** A capitalised word with punctuation, as speech recognition usually
      delivers it. */
  lemma CapitalisedExample()
    ensures Tokens("Good!") == ["good"]
  {
    CapitalisedClean();
    assert IsToken("good");
    TokensOfJoin(["good"]);
  }

  lemma CapitalisedClean()
    ensures Clean("Good!") == "good"
  {
    CapitalisedLower();
    assert "good!" == "good" + ['!'];
    StripAppend("good", ['!']);
    StripIdentity("good");
    StripSingle('!');
  }

  lemma CapitalisedLower()
    ensures Lower("Good!") == "good!"
  {
    var r := Lower("Good!");
    assert r[0] as int == 'G' as int + 32;
  }

  // ---------------------------------------------------------------------
  // Round trip: tokens written out with single spaces tokenize back to
  // themselves.

  lemma {:induction false} LowerIdentity(s: string)
    requires forall c :: c in s ==> !('A' <= c <= 'Z')
    ensures Lower(s) == s
  {
    forall i | 0 <= i < |s| ensures Lower(s)[i] == s[i] {
      assert s[i] in s;
    }
  }

  lemma {:induction false} StripIdentity(s: string)
    requires forall c :: c in s ==> IsTokenChar(c) || IsSpace(c)
    ensures Strip(s) == s
  {
    if s != [] {
      assert s[0] in s;
      StripIdentity(s[1..]);
    }
  }

  lemma {:induction false} JoinChars(ts: seq<string>)
    requires forall t :: t in ts ==> IsToken(t)
    ensures forall c :: c in Join(ts) ==> IsTokenChar(c) || IsSpace(c)
  {
    if |ts| == 1 {
      assert ts[0] in ts;
      forall c | c in ts[0] ensures IsTokenChar(c) {
        var i :| 0 <= i < |ts[0]| && ts[0][i] == c;
      }
    } else if |ts| > 1 {
      assert ts[0] in ts;
      JoinChars(ts[1..]);
      forall c | c in ts[0] ensures IsTokenChar(c) {
        var i :| 0 <= i < |ts[0]| && ts[0][i] == c;
      }
    }
  }

  /** Fields of a whitespace-free prefix glued onto a text. */
  lemma {:induction false} FieldsPrefix(w: string, s: string)
    requires forall i :: 0 <= i < |w| ==> !IsSpace(w[i])
    ensures Fields(w + s) == [w + Fields(s)[0]] + Fields(s)[1..]
  {
    if w == [] {
      FieldsPrefixEmpty(s);
    } else {
      FieldsPrefix(w[1..], s);
      var g := Fields(s);
      var f := Fields(w[1..] + s);
      assert (w + s)[1..] == w[1..] + s;
      assert f[0] == w[1..] + g[0] && f[1..] == g[1..];
      assert [w[0]] + f[0] == w + g[0];
    }
  }

  lemma FieldsPrefixEmpty(s: string)
    ensures Fields([] + s) == [[] + Fields(s)[0]] + Fields(s)[1..]
  {
    var g := Fields(s);
    assert [] + s == s;
    assert [] + g[0] == g[0];
    assert [g[0]] + g[1..] == g;
  }

  lemma {:induction false} FieldsOfJoin(ts: seq<string>)
    requires |ts| > 0
    requires forall t :: t in ts ==> IsToken(t)
    ensures Fields(Join(ts)) == ts
    decreases |ts|
  {
    var t := ts[0];
    assert t in ts;
    NoSpaceInToken(t);
    if |ts| == 1 {
      FieldsPrefix(t, "");
      assert t + "" == t;
    } else {
      assert forall u :: u in ts[1..] ==> u in ts;
      FieldsOfJoin(ts[1..]);
      assert ts[1..][0] in ts;
      JoinStart(ts[1..]);
      FieldsAfterWord(t, Join(ts[1..]));
      assert [t] + ts[1..] == ts;
    }
  }

  /** A word, one space, then a text that starts with a word. */
  lemma FieldsAfterWord(t: string, rest: string)
    requires forall i :: 0 <= i < |t| ==> !IsSpace(t[i])
    requires rest != [] && !IsSpace(rest[0])
    ensures Fields(t + " " + rest) == [t] + Fields(rest)
  {
    var u := " " + rest;
    FieldsAfterSpace(rest);
    FieldsPrefix(t, u);
    assert t + " " + rest == t + u;
    assert Fields(u)[0] == "" && Fields(u)[1..] == Fields(rest);
    assert t + "" == t;
  }

  lemma NoSpaceInToken(t: string)
    requires IsToken(t)
    ensures forall i :: 0 <= i < |t| ==> !IsSpace(t[i])
  {
  }

  lemma FieldsAfterSpace(rest: string)
    requires rest != [] && !IsSpace(rest[0])
    ensures Fields(" " + rest) == [""] + Fields(rest)
  {
    assert (" " + rest)[1..] == rest;
    assert SkipSpaces(" " + rest) == rest;
  }

  /** Any non-empty whitespace run, of any whitespace characters, ends a
      piece: it yields an empty first piece followed by the pieces of the
      rest. */
  lemma FieldsAfterSpaces(w: string, rest: string)
    requires w != [] && forall i :: 0 <= i < |w| ==> IsSpace(w[i])
    requires rest == [] || !IsSpace(rest[0])
    ensures Fields(w + rest) == [""] + Fields(rest)
  {
    assert (w + rest)[0] == w[0];
    SkipSpacesOfRun(w, rest);
  }

  lemma {:induction false} SkipSpacesOfRun(w: string, rest: string)
    requires forall i :: 0 <= i < |w| ==> IsSpace(w[i])
    requires rest == [] || !IsSpace(rest[0])
    ensures SkipSpaces(w + rest) == rest
  {
    if w == [] {
      assert w + rest == rest;
    } else {
      assert (w + rest)[0] == w[0] && (w + rest)[1..] == w[1..] + rest;
      SkipSpacesOfRun(w[1..], rest);
    }
  }

  /** A tab separates words as a space does. */
  lemma TabExample()
    ensures Fields("a\tb") == ["a", "b"]
  {
    assert Fields("b") == ["b"] by {
      FieldsPrefix("b", "");
      assert "b" + "" == "b";
    }
    FieldsAfterSpaces("\t", "b");
    assert "\t" + "b" == "\tb";
    assert Fields("\tb") == ["", "b"];
    FieldsPrefix("a", "\tb");
    assert "a" + "\tb" == "a\tb" && "a" + "" == "a";
  }

  lemma {:induction false} JoinStart(ts: seq<string>)
    requires |ts| > 0 && IsToken(ts[0])
    ensures Join(ts) != [] && Join(ts)[0] == ts[0][0]
  {
  }

  lemma {:induction false} NonEmptyIdentity(ts: seq<string>)
    requires forall i :: 0 <= i < |ts| ==> ts[i] != ""
    ensures NonEmpty(ts) == ts
  {
    if ts != [] {
      NonEmptyIdentity(ts[1..]);
      assert [ts[0]] + ts[1..] == ts;
    }
  }

  /** Splitting well-formed tokens written out with single spaces gives back
      exactly those tokens. */
  lemma TokensOfJoin(ts: seq<string>)
    requires forall t :: t in ts ==> IsToken(t)
    ensures Tokens(Join(ts)) == ts
  {
    var s := Join(ts);
    JoinChars(ts);
    LowerIdentity(s);
    StripIdentity(s);
    if ts == [] {
      assert Tokens(s) == NonEmpty([""]);
    } else {
      FieldsOfJoin(ts);
      forall i | 0 <= i < |ts| ensures ts[i] != "" {
        assert ts[i] in ts;
      }
      NonEmptyIdentity(ts);
    }
  }

  /** Tokenizing is idempotent on its own output. */
  lemma TokensIdempotent(text: string)
    ensures Tokens(Join(Tokens(text))) == Tokens(text)
  {
    TokensAreWellFormed(text);
    TokensOfJoin(Tokens(text));
  }
}
