/** The string operations of the Rust standard library that the modelled code calls, on `seq<char>`. */
module Text {

  /** The characters with the Unicode `White_Space` property (what `char::is_whitespace` accepts). */
  predicate IsWhitespace(c: char)
  {
    var n := c as int;
    || 0x09 <= n <= 0x0D || n == 0x20 || n == 0x85 || n == 0xA0 || n == 0x1680
    || 0x2000 <= n <= 0x200A || n == 0x2028 || n == 0x2029 || n == 0x202F || n == 0x205F || n == 0x3000
  }

  ghost predicate AllWhitespace(s: string)
  {
    forall i :: 0 <= i < |s| ==> IsWhitespace(s[i])
  }

  ghost predicate NoWhitespace(s: string)
  {
    forall i :: 0 <= i < |s| ==> !IsWhitespace(s[i])
  }

  /** `str::split_whitespace`: the maximal runs of non-whitespace characters, in order. */
  function Words(s: string): (ws: seq<string>)
    ensures s != [] && !IsWhitespace(s[0]) ==> ws != []
  {
    if s == [] then []
    else if IsWhitespace(s[0]) then Words(s[1..])
    else if |s| > 1 && !IsWhitespace(s[1]) then
      var rest := Words(s[1..]);
      [[s[0]] + rest[0]] + rest[1..]
    else [[s[0]]] + Words(s[1..])
  }

  /** `<[_]>::join`. */
  function Join(parts: seq<string>, sep: string): string
  {
    if parts == [] then ""
    else if |parts| == 1 then parts[0]
    else parts[0] + sep + Join(parts[1..], sep)
  }

  /** The words of a text with single spaces between them. */
  function Collapse(s: string): string
  {
    Join(Words(s), " ")
  }

  /** `str::split` on one character: always at least one piece. */
  function Split(s: string, sep: char): (parts: seq<string>)
    ensures parts != []
  {
    if s == [] then [""]
    else
      var rest := Split(s[1..], sep);
      if s[0] == sep then [""] + rest else [[s[0]] + rest[0]] + rest[1..]
  }

  function TrimStart(s: string): string
  {
    if s != [] && IsWhitespace(s[0]) then TrimStart(s[1..]) else s
  }

  function TrimEnd(s: string): string
  {
    if s != [] && IsWhitespace(s[|s| - 1]) then TrimEnd(s[..|s| - 1]) else s
  }

  function Trim(s: string): string
  {
    TrimEnd(TrimStart(s))
  }

  /** `str::contains`. */
  predicate Contains(s: string, part: string)
  {
    exists i :: 0 <= i <= |s| && part <= s[i..]
  }

  predicate EndsWith(s: string, suffix: string)
  {
    |suffix| <= |s| && s[|s| - |suffix|..] == suffix
  }

  type Byte = b: int | 0 <= b < 256

  /** The UTF-8 bytes of one character (RFC 3629, section 3). */
  function Utf8Char(c: char): seq<Byte>
  {
    var n := c as int;
    if n < 0x80 then [n]
    else if n < 0x800 then [0xC0 + n / 64, 0x80 + n % 64]
    else if n < 0x1_0000 then [0xE0 + n / 4096, 0x80 + n / 64 % 64, 0x80 + n % 64]
    else [0xF0 + n / 262144, 0x80 + n / 4096 % 64, 0x80 + n / 64 % 64, 0x80 + n % 64]
  }

  /** `str::bytes`. */
  function Utf8(s: string): seq<Byte>
  {
    if s == [] then [] else Utf8Char(s[0]) + Utf8(s[1..])
  }

  lemma {:induction false} Utf8Concat(a: string, b: string)
    ensures Utf8(a + b) == Utf8(a) + Utf8(b)
  {
    hide Utf8Char;
    if a == [] {
      assert a + b == b;
    } else {
      assert (a + b)[1..] == a[1..] + b;
      Utf8Concat(a[1..], b);
    }
  }

  /** `char::to_ascii_lowercase`. */
  function LowerChar(c: char): char
  {
    if 'A' <= c <= 'Z' then (c as int + 32) as char else c
  }

  /** `str::to_ascii_lowercase`. */
  function Lower(s: string): string
  {
    seq(|s|, i requires 0 <= i < |s| => LowerChar(s[i]))
  }

  /** `part` is one contiguous slice of `whole`. */
  ghost predicate IsSlice(part: string, whole: string)
  {
    exists before: string, after: string :: whole == before + part + after
  }

  lemma SliceIsContained(part: string, whole: string)
    ensures IsSlice(part, whole) <==> Contains(whole, part)
  {
    if IsSlice(part, whole) {
      var before, after :| whole == before + part + after;
      assert whole[|before|..] == part + after;
    }
    if Contains(whole, part) {
      var i :| 0 <= i <= |whole| && part <= whole[i..];
      assert whole == whole[..i] + part + whole[i..][|part|..];
    }
  }

  lemma WholeIsSlice(s: string)
    ensures IsSlice(s, s) && IsSlice("", s)
  {
    assert s == [] + s + [] && s == s + [] + [];
  }

  lemma SliceOfSlice(a: string, b: string, c: string)
    requires IsSlice(a, b) && IsSlice(b, c)
    ensures IsSlice(a, c)
  {
    var p, q :| b == p + a + q;
    var r, t :| c == r + b + t;
    assert c == (r + p) + a + (q + t);
  }

  // ---- Collapse, one character at a time ----

  lemma JoinHeadGrows(c: char, parts: seq<string>, sep: string)
    requires parts != []
    ensures Join([[c] + parts[0]] + parts[1..], sep) == [c] + Join(parts, sep)
  {
  }

  /** What `Collapse` does to one leading character. */
  lemma CollapseStep(c: char, t: string)
    ensures Collapse([c] + t) ==
            if IsWhitespace(c) then Collapse(t)
            else if t == [] || !IsWhitespace(t[0]) || Words(t) == [] then [c] + Collapse(t)
            else [c] + " " + Collapse(t)
  {
    var s := [c] + t;
    assert s[1..] == t;
    if !IsWhitespace(c) {
      if t != [] && !IsWhitespace(t[0]) {
        JoinHeadGrows(c, Words(t), " ");
      } else if Words(t) == [] {
        assert Words(s) == [[c]];
      } else {
        assert Words(s)[1..] == Words(t);
      }
    }
  }

  lemma {:induction false} NoWordsMeansWhitespace(s: string)
    ensures Words(s) == [] <==> AllWhitespace(s)
  {
    if s != [] {
      NoWordsMeansWhitespace(s[1..]);
      if IsWhitespace(s[0]) && AllWhitespace(s[1..]) {
        forall i | 0 <= i < |s| ensures IsWhitespace(s[i]) {
          if i > 0 { assert s[i] == s[1..][i - 1]; }
        }
      }
      if AllWhitespace(s) {
        assert forall i :: 0 <= i < |s[1..]| ==> s[1..][i] == s[i + 1];
      }
    }
  }

  lemma NoWordsConcat(x: string, y: string)
    ensures Words(x + y) == [] <==> Words(x) == [] && Words(y) == []
  {
    NoWordsMeansWhitespace(x);
    NoWordsMeansWhitespace(y);
    NoWordsMeansWhitespace(x + y);
    if AllWhitespace(x + y) {
      assert forall i :: 0 <= i < |x| ==> x[i] == (x + y)[i];
      assert forall i :: 0 <= i < |y| ==> y[i] == (x + y)[|x| + i];
    }
  }

  /** `w` is `a` then `b`, with at most one space between them. */
  ghost predicate Glued(w: string, a: string, b: string)
  {
    w == a + b || w == a + " " + b
  }

  lemma GluedCons(p: string, w: string, a: string, b: string)
    requires Glued(w, a, b)
    ensures Glued(p + w, p + a, b)
  {
    assert p + (a + b) == (p + a) + b;
    assert p + (a + " " + b) == (p + a) + " " + b;
  }

  /** Collapsing a concatenation keeps both collapsed halves whole. */
  lemma {:induction false} CollapseConcat(x: string, y: string)
    ensures Glued(Collapse(x + y), Collapse(x), Collapse(y))
    ensures Words(x) == [] ==> Collapse(x + y) == Collapse(y)
  {
    if x == [] {
      assert x + y == y;
    } else {
      var c, t := x[0], x[1..];
      assert x + y == [c] + (t + y) && x == [c] + t;
      CollapseConcat(t, y);
      NoWordsConcat(t, y);
      CollapseStep(c, t);
      CollapseStep(c, t + y);
      if t == [] {
        assert t + y == y;
      } else if !IsWhitespace(c) {
        assert (t + y)[0] == t[0];
        GluedCons([c], Collapse(t + y), Collapse(t), Collapse(y));
        GluedCons([c] + " ", Collapse(t + y), Collapse(t), Collapse(y));
      }
    }
  }

  // ---- Words and pieces of a concatenation ----

  ghost predicate IsWord(w: string)
  {
    w != [] && NoWhitespace(w)
  }

  ghost predicate AllWords(ws: seq<string>)
  {
    forall i :: 0 <= i < |ws| ==> IsWord(ws[i])
  }

  lemma {:induction false} WordsOfWord(w: string, rest: string)
    requires IsWord(w)
    requires rest == [] || IsWhitespace(rest[0])
    ensures Words(w + rest) == [w] + Words(rest)
  {
    var t := w[1..];
    assert w + rest == [w[0]] + (t + rest);
    assert (w + rest)[1..] == t + rest;
    if t == [] {
      assert t + rest == rest && w == [w[0]];
    } else {
      assert (t + rest)[0] == w[1];
      assert NoWhitespace(t) by { assert forall i :: 0 <= i < |t| ==> t[i] == w[i + 1]; }
      WordsOfWord(t, rest);
      assert [w[0]] + t == w;
      assert ([t] + Words(rest))[1..] == Words(rest);
    }
  }

  lemma {:induction false} WordsOfGap(gap: string, rest: string)
    requires AllWhitespace(gap)
    ensures Words(gap + rest) == Words(rest)
  {
    if gap == [] {
      assert gap + rest == rest;
    } else {
      assert (gap + rest)[1..] == gap[1..] + rest;
      assert AllWhitespace(gap[1..]) by { assert forall i :: 0 <= i < |gap| - 1 ==> gap[1..][i] == gap[i + 1]; }
      WordsOfGap(gap[1..], rest);
    }
  }

  /** A line laid out by hand: each word followed by its own gap. */
  function Layout(words: seq<string>, gaps: seq<string>): string
    requires |words| == |gaps|
  {
    if words == [] then "" else words[0] + gaps[0] + Layout(words[1..], gaps[1..])
  }

  /** Whitespace between words, and some of it wherever two words would otherwise run together. */
  ghost predicate AreGaps(gaps: seq<string>)
  {
    && (forall i :: 0 <= i < |gaps| ==> AllWhitespace(gaps[i]))
    && (forall i :: 0 <= i < |gaps| - 1 ==> gaps[i] != [])
  }

  /** Splitting on whitespace recovers the words whatever the layout. */
  lemma {:induction false} WordsOfLayout(lead: string, words: seq<string>, gaps: seq<string>)
    requires |words| == |gaps| && AllWords(words) && AreGaps(gaps) && AllWhitespace(lead)
    ensures Words(lead + Layout(words, gaps)) == words
    decreases |words|
  {
    WordsOfGap(lead, Layout(words, gaps));
    if words != [] {
      var rest := gaps[0] + Layout(words[1..], gaps[1..]);
      assert Layout(words, gaps) == words[0] + rest;
      assert AllWords(words[1..]) by { assert forall i :: 0 <= i < |words| - 1 ==> words[1..][i] == words[i + 1]; }
      assert AreGaps(gaps[1..]) by { assert forall i :: 0 <= i < |gaps| - 1 ==> gaps[1..][i] == gaps[i + 1]; }
      WordsOfLayout(gaps[0], words[1..], gaps[1..]);
      WordsOfWord(words[0], rest);
    }
  }

  lemma {:induction false} JoinIsLayout(words: seq<string>)
    requires AllWords(words)
    ensures Words(Join(words, " ")) == words
  {
    if |words| == 1 {
      WordsOfWord(words[0], "");
      assert words[0] + "" == words[0];
    } else if words != [] {
      var rest := " " + Join(words[1..], " ");
      assert Join(words, " ") == words[0] + rest;
      assert AllWords(words[1..]) by { assert forall i :: 0 <= i < |words| - 1 ==> words[1..][i] == words[i + 1]; }
      JoinIsLayout(words[1..]);
      WordsOfGap(" ", Join(words[1..], " "));
      WordsOfWord(words[0], rest);
    }
  }

  lemma {:induction false} WordsAreWords(s: string)
    ensures AllWords(Words(s))
  {
    if s != [] { WordsAreWords(s[1..]); }
  }

  lemma FirstWordGrows(c: char, a: seq<string>, b: seq<string>)
    requires a != []
    ensures [[c] + (a + b)[0]] + (a + b)[1..] == [[c] + a[0]] + a[1..] + b
  {
  }

  lemma SpaceIsWhitespace()
    ensures IsWhitespace(' ')
  {
  }

  /** The words of a text, from its first character on. */
  lemma WordsCons(c: char, t: string)
    ensures Words([c] + t) ==
            if IsWhitespace(c) then Words(t)
            else if t != [] && !IsWhitespace(t[0]) then [[c] + Words(t)[0]] + Words(t)[1..]
            else [[c]] + Words(t)
  {
    assert ([c] + t)[1..] == t;
  }

  /** Two texts joined with a space have the words of both. */
  lemma {:induction false} WordsAcrossSpace(x: string, y: string)
    ensures Words(x + " " + y) == Words(x) + Words(y)
  {
    if x == [] {
      assert x + " " + y == " " + y;
      WordsOfGap(" ", y);
    } else {
      hide Words, IsWhitespace;
      var c, t, all := x[0], x[1..], x[1..] + " " + y;
      assert x == [c] + t && x + " " + y == [c] + all;
      WordsAcrossSpace(t, y);
      WordsCons(c, t);
      WordsCons(c, all);
      SpaceIsWhitespace();
      assert all[0] == if t == [] then ' ' else t[0];
      if t != [] && !IsWhitespace(t[0]) {
        FirstWordGrows(c, Words(t), Words(y));
      } else if !IsWhitespace(c) {
        assert [[c]] + (Words(t) + Words(y)) == [[c]] + Words(t) + Words(y);
      }
    }
  }

  lemma {:induction false} WordsBeforeGap(x: string, c: char)
    requires IsWhitespace(c)
    ensures Words(x + [c]) == Words(x)
  {
    if x != [] {
      var t := x[1..];
      assert x + [c] == [x[0]] + (t + [c]) && (x + [c])[1..] == t + [c];
      WordsBeforeGap(t, c);
      assert (x + [c])[1] == if t == [] then c else t[0];
    }
  }

  lemma {:induction false} WordsOfTrimEnd(s: string)
    ensures Words(TrimEnd(s)) == Words(s)
  {
    if s != [] && IsWhitespace(s[|s| - 1]) {
      assert s == s[..|s| - 1] + [s[|s| - 1]];
      WordsBeforeGap(s[..|s| - 1], s[|s| - 1]);
      WordsOfTrimEnd(s[..|s| - 1]);
    }
  }

  lemma {:induction false} WordsOfTrimStart(s: string)
    ensures Words(TrimStart(s)) == Words(s)
  {
    if s != [] && IsWhitespace(s[0]) { WordsOfTrimStart(s[1..]); }
  }

  /** Trimming loses no word. */
  lemma WordsOfTrim(s: string)
    ensures Words(Trim(s)) == Words(s)
  {
    WordsOfTrimStart(s);
    WordsOfTrimEnd(TrimStart(s));
  }

  /** A word of joined texts is a word of one of them. */
  lemma {:induction false} WordsOfJoin(parts: seq<string>, w: string)
    requires w in Words(Join(parts, " "))
    ensures exists i :: 0 <= i < |parts| && w in Words(parts[i])
  {
    if |parts| > 1 {
      WordsAcrossSpace(parts[0], Join(parts[1..], " "));
      if w !in Words(parts[0]) {
        WordsOfJoin(parts[1..], w);
        var i :| 0 <= i < |parts| - 1 && w in Words(parts[1..][i]);
        assert w in Words(parts[i + 1]);
      }
    }
  }

  /** A text without a space that occurs in texts joined by spaces occurs in one of them. */
  lemma {:induction false} SpacelessInJoin(p: string, parts: seq<string>)
    requires p != "" && ' ' !in p && IsSlice(p, Join(parts, " "))
    ensures exists i :: 0 <= i < |parts| && IsSlice(p, parts[i])
  {
    if |parts| > 1 {
      var a, rest := parts[0], Join(parts[1..], " ");
      var before, after :| Join(parts, " ") == before + p + after;
      var all := before + p + after;
      assert all == a + " " + rest && all[|a|] == ' ';
      forall k | |before| <= k < |before| + |p| ensures all[k] != ' ' { assert all[k] == p[k - |before|]; }
      if |before| + |p| <= |a| {
        assert a == all[..|a|] == before + p + after[..|a| - |before| - |p|];
        assert IsSlice(p, a);
      } else if |before| > |a| {
        assert rest == all[|a| + 1..] == before[|a| + 1..] + p + after;
        SpacelessInJoin(p, parts[1..]);
        var i :| 0 <= i < |parts| - 1 && IsSlice(p, parts[1..][i]);
        assert IsSlice(p, parts[i + 1]);
      }
    }
  }

  lemma {:induction false} PartOfJoin(parts: seq<string>, i: nat)
    requires i < |parts|
    ensures IsSlice(parts[i], Join(parts, " "))
  {
    if |parts| == 1 {
      assert parts[0] == [] + parts[0] + [];
    } else {
      var rest := Join(parts[1..], " ");
      if i == 0 {
        assert Join(parts, " ") == [] + parts[0] + (" " + rest);
      } else {
        PartOfJoin(parts[1..], i - 1);
        assert Join(parts, " ") == (parts[0] + " ") + rest + [];
        SliceOfSlice(parts[i], rest, Join(parts, " "));
      }
    }
  }

  lemma {:induction false} SplitOff(a: string, sep: char, rest: string)
    requires sep !in a
    ensures Split(a + [sep] + rest, sep) == [a] + Split(rest, sep)
    ensures Split(a, sep) == [a]
  {
    if a == [] {
      assert a + [sep] + rest == [sep] + rest;
    } else {
      assert a + [sep] + rest == [a[0]] + (a[1..] + [sep] + rest);
      SplitOff(a[1..], sep, rest);
      assert a == [a[0]] + a[1..];
    }
  }

  /** `split` undoes `join`. */
  lemma {:induction false} SplitOfJoin(parts: seq<string>, sep: char)
    requires parts != []
    requires forall i :: 0 <= i < |parts| ==> sep !in parts[i]
    ensures Split(Join(parts, [sep]), sep) == parts
  {
    if |parts| == 1 {
      SplitOff(parts[0], sep, "");
    } else {
      SplitOff(parts[0], sep, Join(parts[1..], [sep]));
      assert forall i :: 0 <= i < |parts| - 1 ==> parts[1..][i] == parts[i + 1];
      SplitOfJoin(parts[1..], sep);
    }
  }

  /** What comes before and after the first separator is settled by the whole. */
  lemma {:induction false} FirstSeparator(a: string, x: string, b: string, y: string, sep: char)
    requires sep !in a && sep !in b && a + [sep] + x == b + [sep] + y
    ensures a == b && x == y
  {
    var s, t := a + [sep] + x, b + [sep] + y;
    if a == [] || b == [] {
      assert s[0] == t[0];
      assert s[1..] == t[1..];
    } else {
      assert s[0] == a[0] && t[0] == b[0];
      assert s[1..] == a[1..] + [sep] + x && t[1..] == b[1..] + [sep] + y;
      FirstSeparator(a[1..], x, b[1..], y, sep);
      assert a == [a[0]] + a[1..] && b == [b[0]] + b[1..];
    }
  }

  // ---- What the operations are, from outside ----

  /** The white space characters, by code point (Unicode property `White_Space`). */
  lemma WhitespaceTable(c: char)
    ensures IsWhitespace(c) <==>
            c as int in {0x09, 0x0A, 0x0B, 0x0C, 0x0D, 0x20, 0x85, 0xA0, 0x1680, 0x2000, 0x2001, 0x2002, 0x2003, 0x2004,
                         0x2005, 0x2006, 0x2007, 0x2008, 0x2009, 0x200A, 0x2028, 0x2029, 0x202F, 0x205F, 0x3000}
  {
  }

  /** ASCII capitals go to their small letters, and nothing else changes. */
  lemma LowerCharIs(c: char)
    ensures var k := c as int - 'A' as int;
            if 0 <= k < 26 then LowerChar(c) == "abcdefghijklmnopqrstuvwxyz"[k] else LowerChar(c) == c
  {
  }

  lemma {:induction false} TrimStartIs(s: string)
    ensures exists lead :: AllWhitespace(lead) && s == lead + TrimStart(s)
    ensures TrimStart(s) != "" ==> !IsWhitespace(TrimStart(s)[0])
  {
    if s != [] && IsWhitespace(s[0]) {
      TrimStartIs(s[1..]);
      var lead :| AllWhitespace(lead) && s[1..] == lead + TrimStart(s[1..]);
      assert AllWhitespace([s[0]] + lead) && s == [s[0]] + lead + TrimStart(s);
    } else {
      assert AllWhitespace([]) && s == [] + s;
    }
  }

  lemma {:induction false} TrimEndIs(s: string)
    ensures exists tail :: AllWhitespace(tail) && s == TrimEnd(s) + tail
    ensures TrimEnd(s) != "" ==> !IsWhitespace(TrimEnd(s)[|TrimEnd(s)| - 1]) && TrimEnd(s)[0] == s[0]
  {
    var n := |s| - 1;
    if s != [] && IsWhitespace(s[n]) {
      TrimEndIs(s[..n]);
      var tail :| AllWhitespace(tail) && s[..n] == TrimEnd(s[..n]) + tail;
      assert AllWhitespace(tail + [s[n]]) && s == TrimEnd(s) + (tail + [s[n]]);
    } else {
      assert AllWhitespace([]) && s == s + [];
    }
  }

  /** Trimming takes the white space off both ends and nothing more. */
  lemma TrimIs(s: string)
    ensures exists lead, tail :: AllWhitespace(lead) && AllWhitespace(tail) && s == lead + Trim(s) + tail
    ensures Trim(s) != "" ==> !IsWhitespace(Trim(s)[0]) && !IsWhitespace(Trim(s)[|Trim(s)| - 1])
  {
    TrimStartIs(s);
    TrimEndIs(TrimStart(s));
    var lead :| AllWhitespace(lead) && s == lead + TrimStart(s);
    var tail :| AllWhitespace(tail) && TrimStart(s) == Trim(s) + tail;
    assert s == lead + Trim(s) + tail;
  }

  /** Joining the pieces gives the text back. */
  lemma {:induction false} JoinOfSplit(s: string, sep: char)
    ensures Join(Split(s, sep), [sep]) == s
  {
    if s != [] {
      JoinOfSplit(s[1..], sep);
      var rest := Split(s[1..], sep);
      if s[0] == sep {
        assert ([""] + rest)[1..] == rest;
      } else {
        JoinHeadGrows(s[0], rest, [sep]);
      }
    }
  }

  /** The number in a character's bytes: six bits from each that follows the first. */
  function CodePoint(b: seq<Byte>): int
    requires 1 <= |b| <= 4
  {
    var x := b[0] as int;
    if |b| == 1 then x
    else
      var y := b[1] as int - 0x80;
      if |b| == 2 then (x - 0xC0) * 64 + y
      else
        var z := b[2] as int - 0x80;
        if |b| == 3 then ((x - 0xE0) * 64 + y) * 64 + z
        else (((x - 0xF0) * 64 + y) * 64 + z) * 64 + (b[3] as int - 0x80)
  }

  lemma SixBits(n: nat)
    ensures n / 4096 == n / 64 / 64 && n / 262144 == n / 64 / 64 / 64
  {
  }

  lemma ShortBytes(c: char)
    requires c as int < 0x800
    ensures var (n, b) := (c as int, Utf8Char(c));
            && |b| == (if n < 0x80 then 1 else 2) && CodePoint(b) == n
            && (forall i :: 1 <= i < |b| ==> 0x80 <= b[i] < 0xC0) && (n >= 0x80 ==> 0xC0 <= b[0] < 0xE0)
  {
  }

  lemma LongBytes(c: char)
    requires 0x800 <= c as int
    ensures var (n, b) := (c as int, Utf8Char(c));
            && |b| == (if n < 0x1_0000 then 3 else 4) && CodePoint(b) == n
            && (forall i :: 1 <= i < |b| ==> 0x80 <= b[i] < 0xC0)
            && (if n < 0x1_0000 then 0xE0 <= b[0] < 0xF0 else 0xF0 <= b[0] < 0xF8)
  {
    var n := c as int;
    SixBits(n);
    var (p, q) := (n / 64, n / 64 / 64);
    assert n == p * 64 + n % 64 && p == q * 64 + p % 64;
    if n >= 0x1_0000 { assert q == q / 64 * 64 + q % 64; }
  }

  /** A character is read back from its bytes; the first byte gives their number (RFC 3629, section 3). */
  lemma Utf8Decodes(c: char)
    ensures var (n, b) := (c as int, Utf8Char(c));
            && |b| == (if n < 0x80 then 1 else if n < 0x800 then 2 else if n < 0x1_0000 then 3 else 4)
            && CodePoint(b) == n && (forall i :: 1 <= i < |b| ==> 0x80 <= b[i] < 0xC0)
  {
    hide Utf8Char, CodePoint;
    if c as int < 0x800 { ShortBytes(c); } else { LongBytes(c); }
  }
}
