/**
 Text normalisation of the word counter: deleting punctuation, splitting on
 whitespace and lower-casing. Strings are Python's `str` restricted to Unicode
 scalar values (a Dafny `char` cannot hold a lone surrogate).
 */
module Text {

  /** One of the 32 ASCII characters of Python's `string.punctuation`:
      the ranges `!`..`/`, `:`..`@`, `[`..`` ` `` and `{`..`~`. */
  predicate IsPunctuation(c: char) {
    ('!' <= c <= '/') || (':' <= c <= '@') || ('[' <= c <= '`') || ('{' <= c <= '~')
  }

  predicate NoPunctuation(s: string) {
    forall i :: 0 <= i < |s| ==> !IsPunctuation(s[i])
  }

  /** A character that `str.isspace` accepts; `str.split()` without a
      separator splits on runs of these. */
  predicate IsSpace(c: char) {
    || c == ' '
    || ('\t' <= c <= '\r')
    || ('\U{1C}' <= c <= '\U{1F}')
    || c == '\U{85}'
    || c == '\U{A0}'
    || c == '\U{1680}'
    || ('\U{2000}' <= c <= '\U{200A}')
    || c == '\U{2028}'
    || c == '\U{2029}'
    || c == '\U{202F}'
    || c == '\U{205F}'
    || c == '\U{3000}'
  }

  /** Python's `string.punctuation`, written out character by character. */
  const Punctuation: string := "!\"#$%&'()*+,-./:;<=>?@[\\]^_`{|}~"

  /** The four ranges are exactly the characters of `string.punctuation`. */
  lemma PunctuationChars()
    ensures |Punctuation| == 32
    ensures forall c :: IsPunctuation(c) <==> c in Punctuation
  {
    PunctuationListed();
    assert forall i :: 0 <= i < |Punctuation| ==> IsPunctuation(Punctuation[i]);
  }

  lemma PunctuationListed()
    ensures forall c :: IsPunctuation(c) ==> c in Punctuation
  {
    forall c | IsPunctuation(c) ensures c in Punctuation {
      var k := c as int;
      var i := if k <= 47 then k - 33 else if k <= 64 then k - 43 else if k <= 96 then k - 69 else k - 95;
      assert Punctuation[i] == c;
    }
  }

  /** The characters for which Python's `str.isspace` holds, in code point
      order. */
  const Whitespace: string := [
    '\t', '\n', '\U{0B}', '\U{0C}', '\r', '\U{1C}', '\U{1D}', '\U{1E}', '\U{1F}', ' ',
    '\U{85}', '\U{A0}', '\U{1680}',
    '\U{2000}', '\U{2001}', '\U{2002}', '\U{2003}', '\U{2004}', '\U{2005}',
    '\U{2006}', '\U{2007}', '\U{2008}', '\U{2009}', '\U{200A}',
    '\U{2028}', '\U{2029}', '\U{202F}', '\U{205F}', '\U{3000}']

  /** The ranges of `IsSpace` are exactly the listed whitespace characters,
      none of which is punctuation. */
  lemma SpaceChars()
    ensures forall c :: IsSpace(c) <==> c in Whitespace
    ensures forall c :: IsSpace(c) ==> !IsPunctuation(c)
  {
    SpaceListed();
    assert forall i :: 0 <= i < |Whitespace| ==> IsSpace(Whitespace[i]) && !IsPunctuation(Whitespace[i]);
  }

  lemma SpaceListed()
    ensures forall c :: IsSpace(c) ==> c in Whitespace
  {
    forall c | IsSpace(c) ensures c in Whitespace {
      var k := c as int;
      var i :=
        if k <= 0x0D then k - 0x09
        else if k <= 0x1F then k - 0x1C + 5
        else if k == 0x20 then 9
        else if k == 0x85 then 10
        else if k == 0xA0 then 11
        else if k == 0x1680 then 12
        else if k <= 0x200A then k - 0x2000 + 13
        else if k == 0x2028 then 24
        else if k == 0x2029 then 25
        else if k == 0x202F then 26
        else if k == 0x205F then 27
        else 28;
      assert Whitespace[i] == c;
    }
  }

  /** A token of `str.split()`: non-empty and free of whitespace. */
  predicate IsWord(w: string) {
    w != [] && forall i :: 0 <= i < |w| ==> !IsSpace(w[i])
  }

  // ---------------------------------------------------------------------
  // remove_punctuation

  /** Python's `str.translate` with a table that deletes every character of
      `string.punctuation`: punctuation goes, every other character stays. */
  function RemovePunctuation(s: string): (r: string)
    ensures |r| <= |s|
    ensures NoPunctuation(r)
  {
    if s == [] then []
    else if IsPunctuation(s[0]) then RemovePunctuation(s[1..])
    else [s[0]] + RemovePunctuation(s[1..])
  }

  /** A character survives exactly when it is in the text and is not
      punctuation. */
  lemma {:induction false} RemovePunctuationChars(s: string)
    ensures forall c :: c in RemovePunctuation(s) <==> c in s && !IsPunctuation(c)
  {
    if s != [] {
      RemovePunctuationChars(s[1..]);
      assert s == [s[0]] + s[1..];
    }
  }

  /** Deletion works character by character, so it keeps the order of the
      characters it keeps: it distributes over concatenation. */
  lemma {:induction false} RemovePunctuationAppend(a: string, b: string)
    ensures RemovePunctuation(a + b) == RemovePunctuation(a) + RemovePunctuation(b)
  {
    if a != [] {
      assert (a + b)[1..] == a[1..] + b;
      RemovePunctuationAppend(a[1..], b);
    } else {
      assert a + b == b;
    }
  }

  /** Text without punctuation is left exactly as it is. */
  lemma {:induction false} RemovePunctuationKeeps(s: string)
    requires NoPunctuation(s)
    ensures RemovePunctuation(s) == s
  {
    if s != [] {
      RemovePunctuationKeeps(s[1..]);
    }
  }

  /** Removing punctuation twice is the same as removing it once. */
  lemma RemovePunctuationIdempotent(s: string)
    ensures RemovePunctuation(RemovePunctuation(s)) == RemovePunctuation(s)
  {
    RemovePunctuationKeeps(RemovePunctuation(s));
  }

  // ---------------------------------------------------------------------
  // str.split()

  /** Length of the leading run of whitespace of `s`. */
  function SpaceLength(s: string): (n: nat)
    ensures n <= |s|
    ensures n == |s| || !IsSpace(s[n])
  {
    if s == [] || !IsSpace(s[0]) then 0 else 1 + SpaceLength(s[1..])
  }

  /** Length of the leading run of non-whitespace characters of `s`. */
  function WordLength(s: string): (n: nat)
    ensures n <= |s|
    ensures n == |s| || IsSpace(s[n])
    ensures s != [] && !IsSpace(s[0]) ==> n > 0
  {
    if s == [] || IsSpace(s[0]) then 0 else 1 + WordLength(s[1..])
  }

  /** The leading run of non-whitespace holds no whitespace. */
  lemma {:induction false} WordLengthChars(s: string)
    ensures forall i :: 0 <= i < WordLength(s) ==> !IsSpace(s[i])
  {
    if s != [] && !IsSpace(s[0]) {
      WordLengthChars(s[1..]);
      forall i | 0 < i < WordLength(s) ensures !IsSpace(s[i]) {
        assert s[i] == s[1..][i - 1];
      }
    }
  }

  /** Text of only whitespace is one leading run of whitespace. */
  lemma {:induction false} SpaceLengthAll(s: string)
    requires forall i :: 0 <= i < |s| ==> IsSpace(s[i])
    ensures SpaceLength(s) == |s|
  {
    if s != [] {
      SpaceLengthAll(s[1..]);
    }
  }

  /** `s.split()`: skip whitespace, take the longest run of
      non-whitespace as one token, repeat until the end of `s`. */
  function Split(s: string): (r: seq<string>)
    ensures |r| <= |s|
    decreases |s|
  {
    var t := s[SpaceLength(s)..];
    if t == [] then []
    else
      var n := WordLength(t);
      [t[..n]] + Split(t[n..])
  }

  /** Every token is non-empty and free of whitespace. */
  lemma {:induction false} SplitWords(s: string)
    ensures forall i :: 0 <= i < |Split(s)| ==> IsWord(Split(s)[i])
    decreases |s|
  {
    var t := s[SpaceLength(s)..];
    if t != [] {
      var n := WordLength(t);
      SplitWords(t[n..]);
      WordLengthChars(t);
      SplitUnfold(s);
      forall i | 0 <= i < |Split(s)| ensures IsWord(Split(s)[i]) {
        if i > 0 {
          assert Split(s)[i] == Split(s)[1..][i - 1];
        }
      }
    }
  }

  /** The tokens joined with single spaces, `" ".join(ws)`. */
  function Join(ws: seq<string>): string {
    if ws == [] then []
    else if |ws| == 1 then ws[0]
    else ws[0] + " " + Join(ws[1..])
  }

  lemma {:induction false} WordLengthOfWord(w: string, rest: string)
    requires IsWord(w)
    requires rest == [] || IsSpace(rest[0])
    ensures WordLength(w + rest) == |w|
  {
    if |w| > 1 {
      assert (w + rest)[1..] == w[1..] + rest;
      WordLengthOfWord(w[1..], rest);
    } else {
      assert (w + rest)[1..] == rest;
    }
  }

  lemma SplitSkipsSpace(c: char, s: string)
    requires IsSpace(c)
    ensures Split([c] + s) == Split(s)
  {
    assert ([c] + s)[1..] == s;
  }

  /** A word followed by whitespace (or by nothing) is split off whole. */
  lemma SplitWord(w: string, rest: string)
    requires IsWord(w)
    requires rest == [] || IsSpace(rest[0])
    ensures Split(w + rest) == [w] + Split(rest)
  {
    var s := w + rest;
    WordLengthOfWord(w, rest);
    assert SpaceLength(s) == 0;
    assert s[..|w|] == w;
    assert s[|w|..] == rest;
  }

  /** `split` undoes `" ".join` on a list of tokens. */
  lemma {:induction false} SplitJoin(ws: seq<string>)
    requires forall i :: 0 <= i < |ws| ==> IsWord(ws[i])
    ensures Split(Join(ws)) == ws
  {
    if ws == [] {
      assert Split(Join(ws)) == ws;
    } else if |ws| == 1 {
      SplitWord(ws[0], []);
      assert ws[0] + [] == ws[0];
      assert Split(Join(ws)) == ws;
    } else {
      SplitJoin(ws[1..]);
      SplitJoinStep(ws[0], ws[1..]);
      assert [ws[0]] + ws[1..] == ws;
      assert Split(Join(ws)) == ws;
    }
  }

  lemma SplitJoinStep(w: string, rest: seq<string>)
    requires IsWord(w) && rest != []
    requires Split(Join(rest)) == rest
    ensures Split(Join([w] + rest)) == [w] + rest
  {
    var tail := Join(rest);
    assert ([w] + rest)[1..] == rest;
    assert Join([w] + rest) == w + ([' '] + tail);
    SplitWord(w, [' '] + tail);
    SplitSkipsSpace(' ', tail);
  }

  /** Every token is made of characters of the text. */
  lemma {:induction false} SplitChars(s: string)
    ensures forall i, c :: 0 <= i < |Split(s)| && c in Split(s)[i] ==> c in s
    decreases |s|
  {
    var m := SpaceLength(s);
    var t := s[m..];
    if t != [] {
      var n := WordLength(t);
      SplitChars(t[n..]);
      SplitUnfold(s);
      forall i, c | 0 <= i < |Split(s)| && c in Split(s)[i] ensures c in s {
        if i == 0 {
          TakeChars(t, n, c);
        } else {
          assert Split(s)[i] == Split(s)[1..][i - 1];
          DropChars(t, n, c);
        }
        DropChars(s, m, c);
      }
    }
  }

  lemma TakeChars(s: string, b: nat, c: char)
    requires b <= |s| && c in s[..b]
    ensures c in s
  {
    var k :| 0 <= k < b && s[..b][k] == c;
    assert s[k] == c;
  }

  lemma DropChars(s: string, a: nat, c: char)
    requires a <= |s| && c in s[a..]
    ensures c in s
  {
    var k :| 0 <= k < |s| - a && s[a..][k] == c;
    assert s[a + k] == c;
  }

  /** The first token of a text that has one, and the rest. */
  lemma SplitUnfold(s: string)
    requires Split(s) != []
    ensures var t := s[SpaceLength(s)..];
      var n := WordLength(t);
      && Split(s)[0] == t[..n]
      && Split(s)[1..] == Split(t[n..])
  {
  }

  /** Text made only of whitespace has no tokens. */
  lemma {:induction false} SplitBlank(s: string)
    requires forall i :: 0 <= i < |s| ==> IsSpace(s[i])
    ensures Split(s) == []
  {
    SpaceLengthAll(s);
  }

  // ---------------------------------------------------------------------
  // str.lower() on ASCII letters

  function LowerChar(c: char): (d: char)
    ensures !('A' <= d <= 'Z')
    ensures 'A' <= c <= 'Z' ==> d as int == c as int + 32
    ensures !('A' <= c <= 'Z') ==> d == c
  {
    if 'A' <= c <= 'Z' then (c as int + 32) as char else c
  }

  predicate IsLower(s: string) {
    forall i :: 0 <= i < |s| ==> !('A' <= s[i] <= 'Z')
  }

  /** `s.lower()`, character by character. */
  function Lower(s: string): (r: string)
    ensures |r| == |s|
    ensures forall i :: 0 <= i < |s| ==> r[i] == LowerChar(s[i])
    ensures IsLower(r)
  {
    if s == [] then [] else [LowerChar(s[0])] + Lower(s[1..])
  }

  /** A string is its own lowercase form exactly when it has no upper-case
      letter; hence lower-casing is idempotent. */
  lemma LowerFixed(s: string)
    ensures Lower(s) == s <==> IsLower(s)
    ensures Lower(Lower(s)) == Lower(s)
  {
    if IsLower(s) {
      assert forall i :: 0 <= i < |s| ==> Lower(s)[i] == s[i];
    }
    var l := Lower(s);
    assert forall i :: 0 <= i < |l| ==> Lower(l)[i] == l[i];
  }

  // ---------------------------------------------------------------------
  // Normaliser: remove_punctuation followed by split

  /** The tokens of `text`: punctuation removed, then split on whitespace. */
  function Tokens(text: string): (ws: seq<string>)
    ensures forall i :: 0 <= i < |ws| ==> IsWord(ws[i]) && NoPunctuation(ws[i])
  {
    var s := RemovePunctuation(text);
    SplitWords(s);
    RemovePunctuationChars(text);
    SplitChars(s);
    Split(s)
  }

  /** Normalising the text the normaliser produced (its tokens joined by
      spaces) gives back the same tokens. */
  lemma TokensIdempotent(text: string)
    ensures Tokens(Join(Tokens(text))) == Tokens(text)
  {
    var ws := Tokens(text);
    JoinNoPunctuation(ws);
    RemovePunctuationKeeps(Join(ws));
    SplitJoin(ws);
  }

  lemma {:induction false} JoinNoPunctuation(ws: seq<string>)
    requires forall i :: 0 <= i < |ws| ==> NoPunctuation(ws[i])
    ensures NoPunctuation(Join(ws))
  {
    if |ws| > 1 {
      JoinNoPunctuation(ws[1..]);
      var s := Join(ws);
      assert s == ws[0] + (" " + Join(ws[1..]));
      forall i | 0 <= i < |s| ensures !IsPunctuation(s[i]) {
        if i > |ws[0]| {
          assert s[i] == Join(ws[1..])[i - |ws[0]| - 1];
        }
      }
    }
  }

  /** Text of only whitespace and punctuation (the empty text among it)
      has no tokens. */
  lemma TokensOfBlank(text: string)
    requires forall i :: 0 <= i < |text| ==> IsSpace(text[i]) || IsPunctuation(text[i])
    ensures Tokens(text) == []
  {
    var s := RemovePunctuation(text);
    RemovePunctuationChars(text);
    forall i | 0 <= i < |s| ensures IsSpace(s[i]) {
      assert s[i] in s;
    }
    SplitBlank(s);
  }
}
