/** Text normalization: `temiz_metin` and the Python string operations the
    pipeline relies on (`str.strip`, `str.rstrip`, `re.sub(r"\s+", " ", s)`,
    substring and suffix tests, joining and slicing). */
module Text {

  /** The horizontal ellipsis that marks a truncated summary. */
  const Ellipsis: char := '\U{2026}'

  /** Python's notion of whitespace for `str` (what `\s` in a str pattern and
      `str.strip()` both use): the characters whose bidirectional class is
      WS, B or S, or whose category is Zs. */
  predicate IsSpace(c: char)
  {
    c in Whitespace
  }

  const Whitespace: set<char> := {
    ' ', '\t', '\n', '\U{0B}', '\U{0C}', '\r', '\U{1C}', '\U{1D}', '\U{1E}', '\U{1F}',
    '\U{85}', '\U{A0}', '\U{1680}',
    '\U{2000}', '\U{2001}', '\U{2002}', '\U{2003}', '\U{2004}', '\U{2005}',
    '\U{2006}', '\U{2007}', '\U{2008}', '\U{2009}', '\U{200A}',
    '\U{2028}', '\U{2029}', '\U{202F}', '\U{205F}', '\U{3000}'}

  /** The non-whitespace characters of `s`, in order. */
  function NonSpace(s: string): string
  {
    if s == [] then [] else (if IsSpace(s[0]) then [] else [s[0]]) + NonSpace(s[1..])
  }

  lemma {:induction false} NonSpaceAppend(a: string, b: string)
    ensures NonSpace(a + b) == NonSpace(a) + NonSpace(b)
  {
    if a != [] {
      var h := if IsSpace(a[0]) then [] else [a[0]];
      assert (a + b)[0] == a[0] && (a + b)[1..] == a[1..] + b;
      assert NonSpace(a + b) == h + NonSpace(a[1..] + b);
      NonSpaceAppend(a[1..], b);
    } else {
      assert a + b == b;
    }
  }

  /** Positions `i` and `i + 1` both hold whitespace. */
  ghost predicate SpacePair(s: string, i: int)
    requires 0 <= i < |s| - 1
  {
    IsSpace(s[i]) && IsSpace(s[i + 1])
  }

  /** No two adjacent whitespace characters. */
  ghost predicate NoDoubleSpace(s: string)
  {
    forall i :: 0 <= i < |s| - 1 ==> !SpacePair(s, i)
  }

  lemma NoDoubleSpaceSlice(s: string, a: nat, b: nat)
    requires a <= b <= |s| && NoDoubleSpace(s)
    ensures NoDoubleSpace(s[a..b])
  {
    forall i | 0 <= i < b - a - 1 ensures !SpacePair(s[a..b], i) {
      assert !SpacePair(s, a + i);
    }
  }

  lemma NoDoubleSpaceConcat(x: string, y: string)
    requires NoDoubleSpace(x) && NoDoubleSpace(y)
    requires x == [] || y == [] || !IsSpace(x[|x| - 1]) || !IsSpace(y[0])
    ensures NoDoubleSpace(x + y)
  {
    var z := x + y;
    forall i | 0 <= i < |z| - 1 ensures !SpacePair(z, i) {
      if i + 1 < |x| {
        assert !SpacePair(x, i);
      } else if i >= |x| {
        assert !SpacePair(y, i - |x|);
      }
    }
  }

  /** Every whitespace character is a plain space. */
  ghost predicate PlainSpaces(s: string)
  {
    forall i :: 0 <= i < |s| && IsSpace(s[i]) ==> s[i] == ' '
  }

  /** No whitespace at either end. */
  ghost predicate Trimmed(s: string)
  {
    s == [] || (!IsSpace(s[0]) && !IsSpace(s[|s| - 1]))
  }

  /** The shape `temiz_metin` promises: trimmed, single plain spaces only. */
  ghost predicate Normalized(s: string)
  {
    Trimmed(s) && NoDoubleSpace(s) && PlainSpaces(s)
  }

  /** `str.lstrip()`: drops the leading whitespace. */
  function Lstrip(s: string): (r: string)
    ensures |r| <= |s|
    ensures s != [] && IsSpace(s[0]) ==> |r| < |s|
  {
    if s != [] && IsSpace(s[0]) then Lstrip(s[1..]) else s
  }

  /** `str.rstrip()`: drops the trailing whitespace. */
  function Rstrip(s: string): (r: string)
    ensures |r| <= |s|
  {
    if s != [] && IsSpace(s[|s| - 1]) then Rstrip(s[..|s| - 1]) else s
  }

  /** `lstrip()` yields the longest suffix that does not start with
      whitespace: what it removes is whitespace only, so the text is kept. */
  lemma {:induction false} LstripSpaces(s: string)
    ensures Lstrip(s) == s[|s| - |Lstrip(s)|..]
    ensures Lstrip(s) == [] || !IsSpace(Lstrip(s)[0])
    ensures forall i :: 0 <= i < |s| - |Lstrip(s)| ==> IsSpace(s[i])
    ensures NonSpace(Lstrip(s)) == NonSpace(s)
  {
    if s != [] && IsSpace(s[0]) {
      LstripSpaces(s[1..]);
      assert NonSpace(s) == NonSpace(s[1..]);
      assert s[1..][|s| - 1 - |Lstrip(s)|..] == s[|s| - |Lstrip(s)|..];
      forall i | 1 <= i < |s| - |Lstrip(s)| ensures IsSpace(s[i]) {
        assert s[i] == s[1..][i - 1];
      }
    }
  }

  /** `rstrip()` yields the longest prefix that does not end with
      whitespace: what it removes is whitespace only, so the text is kept. */
  lemma {:induction false} RstripSpaces(s: string)
    ensures Rstrip(s) == s[..|Rstrip(s)|]
    ensures Rstrip(s) == [] || !IsSpace(Rstrip(s)[|Rstrip(s)| - 1])
    ensures forall i :: |Rstrip(s)| <= i < |s| ==> IsSpace(s[i])
    ensures NonSpace(Rstrip(s)) == NonSpace(s)
  {
    if s != [] && IsSpace(s[|s| - 1]) {
      var init := s[..|s| - 1];
      RstripSpaces(init);
      assert init[..|Rstrip(s)|] == s[..|Rstrip(s)|];
      assert s == init + [s[|s| - 1]];
      NonSpaceAppend(init, [s[|s| - 1]]);
      assert NonSpace([s[|s| - 1]]) == [];
    }
  }

  /** `str.strip()`. */
  function Strip(s: string): string
  {
    Rstrip(Lstrip(s))
  }

  /** Stripping removes only whitespace at the ends, so it yields a trimmed
      string with the same non-whitespace text, and keeps the
      single-plain-space shape of the middle. */
  lemma StripKeeps(s: string)
    ensures Trimmed(Strip(s))
    ensures NonSpace(Strip(s)) == NonSpace(s)
    ensures NoDoubleSpace(s) ==> NoDoubleSpace(Strip(s))
    ensures PlainSpaces(s) ==> PlainSpaces(Strip(s))
  {
    var t := Lstrip(s);
    var r := Rstrip(t);
    assert Trimmed(r) by {
      LstripSpaces(s);
      RstripSpaces(t);
      assert r != [] ==> r[0] == t[0];
    }
    assert NonSpace(r) == NonSpace(s) by {
      LstripSpaces(s);
      RstripSpaces(t);
    }
    var k := |s| - |t|;
    assert r == s[k..k + |r|] by {
      LstripSpaces(s);
      RstripSpaces(t);
    }
    SliceShape(s, k, k + |r|);
  }

  /** A slice keeps the single-plain-space shape. */
  lemma SliceShape(s: string, a: nat, b: nat)
    requires a <= b <= |s|
    ensures NoDoubleSpace(s) ==> NoDoubleSpace(s[a..b])
    ensures PlainSpaces(s) ==> PlainSpaces(s[a..b])
  {
    if NoDoubleSpace(s) {
      NoDoubleSpaceSlice(s, a, b);
    }
    if PlainSpaces(s) {
      forall i | 0 <= i < b - a && IsSpace(s[a..b][i]) ensures s[a..b][i] == ' ' {
        assert s[a..b][i] == s[a + i];
      }
    }
  }

  /** `re.sub(r"\s+", " ", s)`: every maximal whitespace run becomes a single
      plain space. */
  function Collapse(s: string): (r: string)
    ensures |r| <= |s|
    decreases |s|
  {
    if s == [] then []
    else if IsSpace(s[0]) then [' '] + Collapse(Lstrip(s))
    else [s[0]] + Collapse(s[1..])
  }

  /** Collapsing leaves no two adjacent whitespace characters and only plain
      spaces, and starts with whitespace only where the input does. */
  lemma {:induction false} CollapseShape(s: string)
    ensures NoDoubleSpace(Collapse(s)) && PlainSpaces(Collapse(s))
    ensures Collapse(s) != [] && IsSpace(Collapse(s)[0]) ==> IsSpace(s[0])
    decreases |s|
  {
    if s != [] {
      var tail := if IsSpace(s[0]) then Lstrip(s) else s[1..];
      var head := if IsSpace(s[0]) then [' '] else [s[0]];
      var rest := Collapse(tail);
      CollapseShape(tail);
      if IsSpace(s[0]) {
        LstripSpaces(s);
      }
      assert Collapse(s) == head + rest;
      assert (head + rest)[1..] == rest;
      NoDoubleSpaceConcat(head, rest);
    }
  }

  /** Collapsing keeps the non-whitespace characters. */
  lemma {:induction false} CollapseText(s: string)
    ensures NonSpace(Collapse(s)) == NonSpace(s)
    decreases |s|
  {
    if s != [] {
      if IsSpace(s[0]) {
        var rest := Lstrip(s);
        CollapseText(rest);
        LstripSpaces(s);
        NonSpaceAppend([' '], Collapse(rest));
      } else {
        CollapseText(s[1..]);
        NonSpaceAppend([s[0]], Collapse(s[1..]));
      }
    }
  }

  /** Whitespace collapsing followed by `strip()`. */
  function Normalize(s: string): string
  {
    Strip(Collapse(s))
  }

  /** Normalizing yields the `temiz_metin` shape and keeps the text. */
  lemma NormalizeNormalized(s: string)
    ensures Normalized(Normalize(s))
    ensures NonSpace(Normalize(s)) == NonSpace(s)
  {
    CollapseShape(s);
    CollapseText(s);
    StripKeeps(Collapse(s));
  }

  /** A string already in normalized shape is left exactly as it is. */
  lemma {:induction false} CollapseFixes(t: string)
    requires NoDoubleSpace(t) && PlainSpaces(t)
    ensures Collapse(t) == t
    decreases |t|
  {
    if t != [] {
      var rest := t[1..];
      assert rest == t[1..|t|];
      SliceShape(t, 1, |t|);
      CollapseFixes(rest);
      if IsSpace(t[0]) {
        assert t[0] == ' ';
        if rest != [] {
          assert !SpacePair(t, 0);
          assert !IsSpace(rest[0]);
        }
        assert Lstrip(rest) == rest;
        assert Lstrip(t) == rest;
        assert Collapse(t) == [' '] + rest;
      } else {
        assert Collapse(t) == [t[0]] + rest;
      }
      assert t == [t[0]] + rest;
    }
  }

  lemma NormalizeFixes(t: string)
    requires Normalized(t)
    ensures Normalize(t) == t
  {
    CollapseFixes(t);
    assert Lstrip(t) == t;
    assert Rstrip(t) == t;
  }

  /** Normalizing twice is the same as normalizing once. */
  lemma NormalizeIdempotent(s: string)
    ensures Normalize(Normalize(s)) == Normalize(s)
  {
    NormalizeNormalized(s);
    NormalizeFixes(Normalize(s));
  }

  /** The longest prefix of `s` without whitespace. */
  function LeadingWord(s: string): (r: string)
    ensures |r| <= |s|
    ensures s != [] && !IsSpace(s[0]) ==> r != []
  {
    if s == [] || IsSpace(s[0]) then [] else [s[0]] + LeadingWord(s[1..])
  }

  /** `str.split()`: the maximal runs of non-whitespace characters, in order. */
  function Words(s: string): seq<string>
    decreases |s|
  {
    if s == [] then []
    else if IsSpace(s[0]) then Words(s[1..])
    else
      var w := LeadingWord(s);
      [w] + Words(s[|w|..])
  }

  /** The leading word is a whitespace-free prefix that ends where
      whitespace or the text ends. */
  lemma {:induction false} LeadingWordSplit(s: string)
    ensures LeadingWord(s) == s[..|LeadingWord(s)|]
    ensures forall i :: 0 <= i < |LeadingWord(s)| ==> !IsSpace(LeadingWord(s)[i])
    ensures |LeadingWord(s)| == |s| || IsSpace(s[|LeadingWord(s)|])
    decreases |s|
  {
    if s != [] && !IsSpace(s[0]) {
      var w := LeadingWord(s[1..]);
      LeadingWordSplit(s[1..]);
      assert LeadingWord(s) == [s[0]] + w;
      forall i | 0 <= i < |w| + 1 ensures !IsSpace(LeadingWord(s)[i]) {
        if i > 0 {
          assert LeadingWord(s)[i] == w[i - 1];
        }
      }
    }
  }

  /** Collapsing passes the leading word through unchanged. */
  lemma {:induction false} LeadingWordCollapse(s: string)
    ensures Collapse(s) == LeadingWord(s) + Collapse(s[|LeadingWord(s)|..])
    decreases |s|
  {
    if s != [] && !IsSpace(s[0]) {
      var rest := s[1..];
      var w := LeadingWord(rest);
      LeadingWordCollapse(rest);
      assert LeadingWord(s) == [s[0]] + w;
      assert Collapse(s) == [s[0]] + Collapse(rest);
      assert rest[|w|..] == s[|w| + 1..];
    } else {
      assert s[0..] == s;
    }
  }

  /** Leading whitespace does not change the words. */
  lemma {:induction false} WordsLstrip(s: string)
    ensures Words(Lstrip(s)) == Words(s)
    decreases |s|
  {
    if s != [] && IsSpace(s[0]) {
      WordsLstrip(s[1..]);
    }
  }

  /** Every word is non-empty and free of whitespace. */
  lemma {:induction false} WordsShape(s: string)
    ensures forall k :: 0 <= k < |Words(s)| ==>
              Words(s)[k] != [] && forall i :: 0 <= i < |Words(s)[k]| ==> !IsSpace(Words(s)[k][i])
    decreases |s|
  {
    if s != [] {
      if IsSpace(s[0]) {
        WordsShape(s[1..]);
      } else {
        var w := LeadingWord(s);
        LeadingWordSplit(s);
        WordsShape(s[|w|..]);
        assert forall k :: 1 <= k < |Words(s)| ==> Words(s)[k] == Words(s[|w|..])[k - 1];
      }
    }
  }

  /** Right-stripping only reaches into the second part while it holds a
      non-space character. */
  lemma {:induction false} RstripAppend(a: string, b: string)
    requires b != [] && !IsSpace(b[0])
    ensures Rstrip(a + b) == a + Rstrip(b)
    decreases |b|
  {
    var ab := a + b;
    if IsSpace(b[|b| - 1]) {
      var init := b[..|b| - 1];
      assert ab[..|ab| - 1] == a + init;
      RstripAppend(a, init);
    }
  }

  /** A text ending in a non-space loses one trailing space to `rstrip`. */
  lemma RstripSpaceAfter(w: string)
    requires w != [] && !IsSpace(w[|w| - 1])
    ensures Rstrip(w + [' ']) == w
  {
    assert IsSpace(' ');
    assert (w + [' '])[..|w|] == w;
  }

  /** `" ".join` of two or more parts. */
  lemma JoinCons(w: string, ws: seq<string>)
    requires ws != []
    ensures Join([w] + ws, " ") == w + " " + Join(ws, " ")
  {
    assert ([w] + ws)[1..] == ws;
  }

  /** For a text that starts with a word, collapsing and right-stripping
      joins its words with single spaces. */
  lemma {:induction false} CollapseWords(t: string)
    requires t == [] || !IsSpace(t[0])
    ensures Rstrip(Collapse(t)) == Join(Words(t), " ")
    decreases |t|
  {
    if t != [] {
      var w := LeadingWord(t);
      var r := t[|w|..];
      LeadingWordSplit(t);
      LeadingWordCollapse(t);
      assert Words(t) == [w] + Words(r);
      assert !IsSpace(w[|w| - 1]);
      if r == [] {
        assert Collapse(t) == w;
      } else {
        var u := Lstrip(r);
        assert Collapse(t) == (w + [' ']) + Collapse(u) by {
          assert IsSpace(r[0]);
          assert Collapse(r) == [' '] + Collapse(u);
        }
        LstripSpaces(r);
        WordsLstrip(r);
        if u == [] {
          RstripSpaceAfter(w);
        } else {
          CollapseWords(u);
          assert Collapse(u) == [u[0]] + Collapse(u[1..]);
          RstripAppend(w + [' '], Collapse(u));
          JoinCons(w, Words(u));
        }
      }
    }
  }

  /** Collapsing whitespace and stripping is `" ".join(s.split())`: each
      interior whitespace run becomes exactly one space between words. */
  lemma NormalizeWords(s: string)
    ensures Normalize(s) == Join(Words(s), " ")
  {
    var u := Lstrip(s);
    LstripSpaces(s);
    WordsLstrip(s);
    CollapseWords(u);
    assert Lstrip(Collapse(s)) == Collapse(u) by {
      if s != [] && IsSpace(s[0]) {
        assert Collapse(s) == [' '] + Collapse(u);
        assert IsSpace(' ');
        assert Lstrip([' '] + Collapse(u)) == Lstrip(Collapse(u));
      }
      if u != [] {
        assert Collapse(u) == [u[0]] + Collapse(u[1..]);
      }
    }
  }

  /** `temiz_metin`: empty input gives "", otherwise the unescaped text with
      whitespace runs collapsed and both ends trimmed. */
  function Clean(unescape: string -> string, s: string): (r: string)
    ensures s == [] ==> r == []
  {
    if s == [] then [] else Normalize(unescape(s))
  }

  /** Whatever `unescape` produces, the cleaned text is trimmed, holds single
      plain spaces only and has the same non-whitespace characters. */
  lemma CleanNormalized(unescape: string -> string, s: string)
    ensures Normalized(Clean(unescape, s))
    ensures s != [] ==> NonSpace(Clean(unescape, s)) == NonSpace(unescape(s))
  {
    if s != [] {
      NormalizeNormalized(unescape(s));
    }
  }

  /** Cleaning a cleaned text again changes nothing, provided unescaping
      leaves that cleaned text as it is (it holds no entity reference). */
  lemma CleanIdempotent(unescape: string -> string, s: string)
    requires unescape(Clean(unescape, s)) == Clean(unescape, s)
    ensures Clean(unescape, Clean(unescape, s)) == Clean(unescape, s)
  {
    var c := Clean(unescape, s);
    CleanNormalized(unescape, s);
    if c != [] {
      NormalizeFixes(c);
    }
  }

  /** Python's `sub in s` for strings. */
  predicate Contains(s: string, sub: string)
    decreases |s|
  {
    sub <= s || (s != [] && Contains(s[1..], sub))
  }

  /** `sub` occurs in `s` starting at position `i`. */
  ghost predicate OccursAt(s: string, sub: string, i: int)
  {
    0 <= i && i + |sub| <= |s| && s[i..i + |sub|] == sub
  }

  /** An occurrence in the tail is one position later in the whole text. */
  lemma OccursShift(s: string, sub: string, i: int)
    requires s != [] && 0 <= i
    ensures OccursAt(s[1..], sub, i) <==> OccursAt(s, sub, i + 1)
  {
    if 0 <= i && i + |sub| <= |s[1..]| {
      assert s[1..][i..i + |sub|] == s[i + 1..i + 1 + |sub|];
    }
  }

  lemma {:induction false} ContainsOccurs(s: string, sub: string)
    requires Contains(s, sub)
    ensures exists i :: OccursAt(s, sub, i)
    decreases |s|
  {
    if sub <= s {
      assert OccursAt(s, sub, 0);
    } else {
      ContainsOccurs(s[1..], sub);
      var i :| OccursAt(s[1..], sub, i);
      OccursShift(s, sub, i);
    }
  }

  lemma {:induction false} OccursContains(s: string, sub: string, i: int)
    requires OccursAt(s, sub, i)
    ensures Contains(s, sub)
    decreases i
  {
    if i == 0 {
      assert sub <= s;
    } else {
      OccursShift(s, sub, i - 1);
      OccursContains(s[1..], sub, i - 1);
    }
  }

  /** `sub in s` holds exactly when `sub` occurs at some position of `s`. */
  lemma ContainsAt(s: string, sub: string)
    ensures Contains(s, sub) <==> exists i :: OccursAt(s, sub, i)
  {
    if Contains(s, sub) {
      ContainsOccurs(s, sub);
    }
    if exists i :: OccursAt(s, sub, i) {
      var i :| OccursAt(s, sub, i);
      OccursContains(s, sub, i);
    }
  }

  /** Python's `s.endswith(suffix)`. */
  predicate EndsWith(s: string, suffix: string)
  {
    |suffix| <= |s| && s[|s| - |suffix|..] == suffix
  }

  /** Python's `sep.join(parts)`. */
  function Join(parts: seq<string>, sep: string): string
  {
    if parts == [] then []
    else if |parts| == 1 then parts[0]
    else parts[0] + sep + Join(parts[1..], sep)
  }

  /** Python's `s[:n]`: a negative `n` counts from the end. */
  function PyPrefix(s: string, n: int): (r: string)
    ensures r <= s
    ensures n >= 0 ==> |r| == if n < |s| then n else |s|
  {
    if n >= 0 then (if n < |s| then s[..n] else s)
    else if |s| + n > 0 then s[..|s| + n]
    else []
  }
}
