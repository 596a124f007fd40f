/**
 The validators of branch and repository names. A name becomes a path under a root, so what matters is
 that checks on the whole string settle every path segment.
 */
module Names {
  import opened Sequences
  import opened Text

  datatype Verdict =
    | Valid | Empty | TooLong | LeadingDash | EmptySegment | TrailingDot | DoubleDot | AtBrace
    | BadCharacter(c: char) | DotSegment | LockSegment | WrongParts | DotName

  /** `char::is_control`: Unicode category Cc. */
  predicate IsControl(c: char)
  {
    c as int <= 0x1F || 0x7F <= c as int <= 0x9F
  }

  predicate IsBad(c: char)
  {
    IsControl(c) || IsWhitespace(c) || c in "~^:?*[\\"
  }

  /** `chars().find(..)`. */
  function FirstChar(s: string, p: char -> bool): Option<char>
  {
    if s == [] then None else if p(s[0]) then Some(s[0]) else FirstChar(s[1..], p)
  }

  /** The first segment that starts with a dot or ends in `.lock`. */
  function CheckSegments(segments: seq<string>): Verdict
  {
    if segments == [] then Valid
    else if "." <= segments[0] then DotSegment
    else if EndsWith(segments[0], ".lock") then LockSegment
    else CheckSegments(segments[1..])
  }

  /** `validate_branch_name`. */
  function ValidateBranchName(name: string): Verdict
  {
    if name == "" then Empty
    else if |Utf8(name)| > 255 then TooLong
    else if "-" <= name then LeadingDash
    else if "/" <= name || EndsWith(name, "/") || Contains(name, "//") then EmptySegment
    else if EndsWith(name, ".") then TrailingDot
    else if Contains(name, "..") then DoubleDot
    else if Contains(name, "@{") || name == "@" then AtBrace
    else
      match FirstChar(name, c => IsBad(c))
      case Some(c) => BadCharacter(c)
      case None => CheckSegments(Split(name, '/'))
  }

  predicate IsRepoChar(c: char)
  {
    'a' <= c <= 'z' || 'A' <= c <= 'Z' || '0' <= c <= '9' || c == '-' || c == '_' || c == '.'
  }

  function CheckRepoSegment(segment: string): Verdict
  {
    if segment == "" then EmptySegment
    else if segment == "." || segment == ".." then DotName
    else
      match FirstChar(segment, c => !IsRepoChar(c))
      case Some(c) => BadCharacter(c)
      case None => Valid
  }

  /** `validate_repo_name`. */
  function ValidateRepoName(repo: string): Verdict
  {
    if |Utf8(repo)| > 201 then TooLong
    else
      var parts := Split(repo, '/');
      if |parts| != 2 then WrongParts
      else
        var owner := CheckRepoSegment(parts[0]);
        if owner != Valid then owner else CheckRepoSegment(parts[1])
  }

  // ---- From the whole name to its segments ----

  lemma {:induction false} FirstCharIsFirst(s: string, p: char -> bool)
    ensures FirstChar(s, p).None? <==> forall c :: c in s ==> !p(c)
    ensures FirstChar(s, p).Some? ==>
              exists i :: 0 <= i < |s| && s[i] == FirstChar(s, p).value && p(s[i]) && forall j :: 0 <= j < i ==> !p(s[j])
  {
    if s != [] {
      FirstCharIsFirst(s[1..], p);
      assert s == [s[0]] + s[1..];
      if !p(s[0]) && FirstChar(s, p).Some? {
        var i :| 0 <= i < |s| - 1 && s[1..][i] == FirstChar(s, p).value && p(s[1..][i])
                 && forall j :: 0 <= j < i ==> !p(s[1..][j]);
        assert s[i + 1] == s[1..][i] && forall j :: 1 <= j < i + 1 ==> s[j] == s[1..][j - 1];
      }
    }
  }

  lemma ContainsStep(s: string, part: string)
    requires s != [] && part != []
    ensures Contains(s, part) <==> part <= s || Contains(s[1..], part)
  {
    if Contains(s, part) {
      var i :| 0 <= i <= |s| && part <= s[i..];
      if i > 0 { assert s[1..][i - 1..] == s[i..]; }
    }
    if part <= s { assert s[0..] == s; }
    if Contains(s[1..], part) {
      var i :| 0 <= i <= |s[1..]| && part <= s[1..][i..];
      assert s[i + 1..] == s[1..][i..];
    }
  }

  /** A pair without the separator occurs in the whole exactly when it occurs in some piece. */
  lemma {:induction false} PairInPiece(s: string, sep: char, a: char, b: char)
    requires a != sep && b != sep
    ensures Contains(s, [a, b]) <==> exists i :: 0 <= i < |Split(s, sep)| && Contains(Split(s, sep)[i], [a, b])
    ensures Split(s, sep)[0] <= s
    ensures s != [] && s[0] != sep ==> Split(s, sep)[0] != []
  {
    if s != [] {
      var rest, all := Split(s[1..], sep), Split(s, sep);
      PairInPiece(s[1..], sep, a, b);
      ContainsStep(s, [a, b]);
      if s[0] == sep {
        assert all[1..] == rest;
        assert !Contains("", [a, b]);
      } else {
        ContainsStep(all[0], [a, b]);
        assert all[0][1..] == rest[0] && all[1..] == rest[1..];
      }
    }
  }

  /** A character other than the separator occurs in the whole exactly when it occurs in some piece. */
  lemma {:induction false} CharInPiece(s: string, sep: char, c: char)
    requires c != sep
    ensures c in s <==> exists i :: 0 <= i < |Split(s, sep)| && c in Split(s, sep)[i]
  {
    if s != [] {
      CharInPiece(s[1..], sep, c);
      var rest, all := Split(s[1..], sep), Split(s, sep);
      assert s == [s[0]] + s[1..];
      if s[0] == sep {
        assert all[1..] == rest;
      } else {
        assert all[0] == [s[0]] + rest[0] && all[1..] == rest[1..];
      }
    }
  }

  lemma {:induction false} NoSeparatorInPieces(s: string, sep: char)
    ensures forall i :: 0 <= i < |Split(s, sep)| ==> sep !in Split(s, sep)[i]
  {
    if s != [] { NoSeparatorInPieces(s[1..], sep); }
  }

  lemma FirstPiece(s: string, sep: char)
    ensures Split(s, sep)[0] == "" <==> s == "" || s[0] == sep
  {
  }

  /** A later piece is empty exactly when a separator ends the string or meets another. */
  lemma {:induction false} LaterEmptyPiece(s: string, sep: char)
    ensures (exists i :: 1 <= i < |Split(s, sep)| && Split(s, sep)[i] == "") <==>
            (s != "" && s[|s| - 1] == sep) || Contains(s, [sep, sep])
  {
    if s != [] {
      var t := s[1..];
      var rest, all := Split(t, sep), Split(s, sep);
      LaterEmptyPiece(t, sep);
      ContainsStep(s, [sep, sep]);
      FirstPiece(t, sep);
      assert t != "" ==> t[|t| - 1] == s[|s| - 1];
      if s[0] == sep {
        assert all[1..] == rest;
        assert [sep, sep] <= s <==> t != "" && t[0] == sep;
      } else {
        assert all[1..] == rest[1..];
        assert forall i :: 1 <= i < |all| ==> all[i] == rest[i];
      }
    }
  }

  /** The three whole-string checks find exactly the names with an empty segment. */
  lemma EmptyPieces(s: string, sep: char)
    ensures (exists i :: 0 <= i < |Split(s, sep)| && Split(s, sep)[i] == "") <==>
            s == "" || s[0] == sep || s[|s| - 1] == sep || Contains(s, [sep, sep])
  {
    FirstPiece(s, sep);
    LaterEmptyPiece(s, sep);
  }

  lemma {:induction false} CheckSegmentsIff(segments: seq<string>)
    ensures CheckSegments(segments) == Valid <==>
            forall i :: 0 <= i < |segments| ==> !("." <= segments[i]) && !EndsWith(segments[i], ".lock")
  {
    if segments != [] {
      CheckSegmentsIff(segments[1..]);
      assert forall i :: 1 <= i < |segments| ==> segments[i] == segments[1..][i - 1];
    }
  }

  // ---- Branch names ----

  /** What a segment of a branch name may be. */
  ghost predicate GoodSegment(s: string)
  {
    && s != "" && !("." <= s) && !EndsWith(s, ".lock")
    && !Contains(s, "..") && !Contains(s, "@{")
    && forall c :: c in s ==> !IsBad(c)
  }

  lemma SlashIsNotBad()
    ensures !IsBad('/')
  {
  }

  lemma BadInSegments(name: string)
    ensures (forall c :: c in name ==> !IsBad(c)) <==>
            forall i :: 0 <= i < |Split(name, '/')| ==> forall c :: c in Split(name, '/')[i] ==> !IsBad(c)
  {
    SlashIsNotBad();
    NoSeparatorInPieces(name, '/');
    hide IsBad, Split;
    var segments := Split(name, '/');
    forall c | c != '/' ensures c in name <==> exists i :: 0 <= i < |segments| && c in segments[i] {
      CharInPiece(name, '/', c);
    }
    if forall c :: c in name ==> !IsBad(c) {
      forall i, c | 0 <= i < |segments| && c in segments[i] ensures !IsBad(c) { assert c in name; }
    }
    if forall i :: 0 <= i < |segments| ==> forall c :: c in segments[i] ==> !IsBad(c) {
      forall c | c in name ensures !IsBad(c) {
        if c != '/' { var i :| 0 <= i < |segments| && c in segments[i]; }
      }
    }
  }

  /** A branch name is accepted exactly when each of its segments is good, and its ends and length are. */
  lemma BranchNameIff(name: string)
    ensures ValidateBranchName(name) == Valid <==>
            && |Utf8(name)| <= 255 && !("-" <= name) && !EndsWith(name, ".") && name != "@"
            && forall i :: 0 <= i < |Split(name, '/')| ==> GoodSegment(Split(name, '/')[i])
  {
    var segments := Split(name, '/');
    EmptyPieces(name, '/');
    PairInPiece(name, '/', '.', '.');
    PairInPiece(name, '/', '@', '{');
    FirstCharIsFirst(name, c => IsBad(c));
    CheckSegmentsIff(segments);
    BadInSegments(name);
    assert ['/', '/'] == "//" && ['.', '.'] == ".." && ['@', '{'] == "@{";
    hide Utf8, Split, Contains, FirstChar, CheckSegments, IsBad;
    assert name != "" ==> ("/" <= name <==> name[0] == '/') && (EndsWith(name, "/") <==> name[|name| - 1] == '/');
  }

  /** Walking a relative path from a directory, one segment at a time. */
  function Resolve(root: seq<string>, segments: seq<string>): seq<string>
    decreases |segments|
  {
    if segments == [] then root
    else
      var s := segments[0];
      Resolve(if s == "" || s == "." then root
              else if s == ".." then (if root == [] then [] else root[..|root| - 1])
              else root + [s],
              segments[1..])
  }

  ghost predicate IsPlain(s: string)
  {
    s != "" && s != "." && s != ".."
  }

  lemma {:induction false} PlainSegmentsOnlyPush(root: seq<string>, segments: seq<string>)
    requires forall i :: 0 <= i < |segments| ==> IsPlain(segments[i])
    ensures Resolve(root, segments) == root + segments
    decreases |segments|
  {
    if segments != [] {
      assert IsPlain(segments[0]);
      assert forall i :: 0 <= i < |segments| - 1 ==> segments[1..][i] == segments[i + 1];
      PlainSegmentsOnlyPush(root + [segments[0]], segments[1..]);
      assert root + [segments[0]] + segments[1..] == root + segments;
    }
  }

  /** An accepted branch name only ever goes down from any root, and ends strictly below it. */
  lemma BranchStaysBelowRoot(name: string, root: seq<string>, k: nat)
    requires ValidateBranchName(name) == Valid && k <= |Split(name, '/')|
    ensures Resolve(root, Split(name, '/')[..k]) == root + Split(name, '/')[..k]
    ensures |Resolve(root, Split(name, '/'))| > |root| && root <= Resolve(root, Split(name, '/'))
  {
    BranchNameIff(name);
    hide ValidateBranchName;
    var segments := Split(name, '/');
    forall i | 0 <= i < |segments| ensures IsPlain(segments[i]) { assert GoodSegment(segments[i]); }
    PlainSegmentsOnlyPush(root, segments[..k]);
    PlainSegmentsOnlyPush(root, segments);
  }

  // ---- The worktree directory of a branch ----

  /** `sanitize_branch_segment`. */
  function Flatten(branch: string): string
  {
    if branch == "" then ""
    else
      (if branch[0] == '/' then "__" else if IsRepoChar(branch[0]) then [branch[0]] else "-") + Flatten(branch[1..])
  }

  function Sanitize(branch: string): string
  {
    if Flatten(branch) == "" then "uow" else Flatten(branch)
  }

  lemma {:induction false} FlattenHasNoSlash(branch: string)
    ensures '/' !in Flatten(branch)
  {
    if branch != "" { FlattenHasNoSlash(branch[1..]); }
  }

  lemma BranchStart(branch: string)
    requires ValidateBranchName(branch) == Valid
    ensures branch != "" && branch[0] != '.'
  {
    BranchNameIff(branch);
    hide ValidateBranchName, Utf8, IsBad, Contains;
    assert GoodSegment(Split(branch, '/')[0]);
    PairInPiece(branch, '/', '.', '.');
  }

  /** The directory of an accepted branch is always one plain component. */
  lemma WorktreeIsOneComponent(branch: string, root: seq<string>)
    requires ValidateBranchName(branch) == Valid
    ensures Split(Sanitize(branch), '/') == [Sanitize(branch)]
    ensures Resolve(root, [Sanitize(branch)]) == root + [Sanitize(branch)]
  {
    BranchStart(branch);
    hide ValidateBranchName, Split;
    FlattenHasNoSlash(branch);
    SplitOff(Sanitize(branch), '/', "");
    assert Sanitize(branch)[0] != '.';
    PlainSegmentsOnlyPush(root, [Sanitize(branch)]);
  }

  // ---- Which branches share a directory ----

  /** Only characters that the directory name keeps, and slashes. */
  predicate IsPlainName(s: string)
  {
    forall c :: c in s ==> c == '/' || IsRepoChar(c)
  }

  lemma {:induction false} FlattenConcat(a: string, b: string)
    ensures Flatten(a + b) == Flatten(a) + Flatten(b)
  {
    if a == "" {
      assert a + b == b;
    } else {
      assert a + b == [a[0]] + (a[1..] + b);
      FlattenConcat(a[1..], b);
    }
  }

  lemma {:induction false} FlattenKeepsSlashless(s: string)
    requires IsPlainName(s) && '/' !in s
    ensures Flatten(s) == s
  {
    if s != "" {
      assert s == [s[0]] + s[1..];
      FlattenKeepsSlashless(s[1..]);
    }
  }

  lemma FlattenIsEmpty(s: string)
    ensures Flatten(s) == "" <==> s == ""
  {
  }

  lemma FlattenAround(before: string, after: string)
    ensures Flatten(before + "/" + after) == Flatten(before) + "__" + Flatten(after)
    ensures Flatten(before + "__" + after) == Flatten(before) + "__" + Flatten(after)
  {
    FlattenConcat(before + "/", after);
    FlattenConcat(before, "/");
    FlattenConcat(before + "__", after);
    FlattenConcat(before, "__");
    assert Flatten("/") == "__" && Flatten("__"[1..]) == "_" && Flatten("__") == "__";
  }

  /** A character the directory name shows as a dash. */
  predicate IsDashed(c: char)
  {
    c == '-' || (c != '/' && !IsRepoChar(c))
  }

  lemma FlattenDash(before: string, c: char, after: string)
    requires IsDashed(c)
    ensures Flatten(before + [c] + after) == Flatten(before) + "-" + Flatten(after)
  {
    FlattenConcat(before + [c], after);
    FlattenConcat(before, [c]);
    assert [c][1..] == "";
  }

  // Gluing two good pieces.

  /** Characters that make no refused pair, no `.lock` and no bad character. */
  predicate IsHarmless(c: char)
  {
    c == '_' || c == '#' || c == '+'
  }

  lemma HarmlessIsNotBad(c: char)
    requires IsHarmless(c)
    ensures !IsBad(c) && c !in ".@{/-" && c !in ".lock" && c as int < 128
  {
  }

  ghost predicate NoPairs(s: string)
  {
    !Contains(s, "..") && !Contains(s, "@{") && forall c :: c in s ==> !IsBad(c)
  }

  lemma {:induction false} PairAround(x: string, t: string, y: string, a: char, b: char)
    requires t != "" && a !in t && b !in t
    ensures Contains(x + t + y, [a, b]) ==> Contains(x, [a, b]) || Contains(y, [a, b])
  {
    var s := x + t + y;
    if i :| 0 <= i <= |s| && [a, b] <= s[i..] {
      assert s[i] == a && s[i + 1] == b;
      assert forall k :: |x| <= k < |x| + |t| ==> s[k] == t[k - |x|] && s[k] in t;
      if i + 1 < |x| {
        assert [a, b] <= x[i..];
      } else if i >= |x| + |t| {
        assert [a, b] <= y[i - |x| - |t|..] by { assert s[i..] == y[i - |x| - |t|..]; }
      }
    }
  }

  lemma EndsAround(x: string, t: string, y: string, suffix: string)
    requires t != "" && t[|t| - 1] !in suffix
    ensures EndsWith(x + t + y, suffix) ==> EndsWith(y, suffix)
  {
    var s := x + t + y;
    assert s[|x| + |t| - 1] == t[|t| - 1];
    if EndsWith(s, suffix) {
      forall k | |s| - |suffix| <= k < |s| ensures s[k] in suffix { assert s[k] == suffix[k - (|s| - |suffix|)]; }
      assert |y| >= |suffix|;
      assert s[|s| - |suffix|..] == y[|y| - |suffix|..];
    }
  }

  /** Two pieces around harmless characters make a good segment. */
  lemma GoodGlue(x: string, t: string, y: string)
    requires t != "" && (forall c :: c in t ==> IsHarmless(c))
    requires NoPairs(x) && NoPairs(y) && !("." <= x) && !EndsWith(y, ".lock")
    ensures GoodSegment(x + t + y)
  {
    forall c | c in t ensures !IsBad(c) && c !in ".@{/-" && c !in ".lock" { HarmlessIsNotBad(c); }
    hide IsHarmless, IsBad, Contains;
    assert t[0] in t && t[|t| - 1] in t;
    PairAround(x, t, y, '.', '.');
    PairAround(x, t, y, '@', '{');
    EndsAround(x, t, y, ".lock");
    assert ['.', '.'] == ".." && ['@', '{'] == "@{";
    assert (x + t + y)[0] == if x == "" then t[0] else x[0];
  }

  lemma SliceHasNoPairs(part: string, whole: string)
    requires IsSlice(part, whole) && NoPairs(whole)
    ensures NoPairs(part)
  {
    hide IsBad;
    SliceIsContained("..", part);
    SliceIsContained("..", whole);
    SliceIsContained("@{", part);
    SliceIsContained("@{", whole);
    if Contains(part, "..") { SliceOfSlice("..", part, whole); }
    if Contains(part, "@{") { SliceOfSlice("@{", part, whole); }
    var before, after :| whole == before + part + after;
    assert forall c :: c in part ==> c in whole;
  }

  /** The two sides of a text have none of the pairs that the text has not. */
  lemma SidesHaveNoPairs(x: string, t: string, y: string)
    requires NoPairs(x + t + y)
    ensures NoPairs(x) && NoPairs(y)
  {
    assert x + t + y == [] + x + (t + y) && x + t + y == (x + t) + y + [];
    SliceHasNoPairs(x, x + t + y);
    SliceHasNoPairs(y, x + t + y);
  }

  lemma EdgesOfParts(x: string, y: string)
    ensures "." <= x ==> "." <= x + y
    ensures EndsWith(y, ".lock") ==> EndsWith(x + y, ".lock")
  {
    var s := x + y;
    if |y| >= 5 { assert s[|s| - 5..] == y[|y| - 5..]; }
  }

  // Splitting.

  lemma {:induction false} SplitPrefix(t: string, q: string, sep: char)
    requires sep !in t
    ensures Split(t + q, sep) == [t + Split(q, sep)[0]] + Split(q, sep)[1..]
  {
    if t == "" {
      assert t + q == q && t + Split(q, sep)[0] == Split(q, sep)[0];
    } else {
      assert t + q == [t[0]] + (t[1..] + q) && (t + q)[1..] == t[1..] + q;
      assert t[0] in t && forall c :: c in t[1..] ==> c in t;
      SplitPrefix(t[1..], q, sep);
      assert [t[0]] + (t[1..] + Split(q, sep)[0]) == t + Split(q, sep)[0];
    }
  }

  ghost predicate AllGood(segments: seq<string>)
  {
    forall i :: 0 <= i < |segments| ==> GoodSegment(segments[i])
  }

  /** What an accepted name is, apart from its segments and its length. */
  ghost predicate GoodEnds(name: string)
  {
    name != "" && name[0] != '-' && name[|name| - 1] != '.' && name != "@"
  }

  lemma EmptyIsNotGood()
    ensures !AllGood(Split("", '/'))
  {
    assert Split("", '/')[0] == "";
  }

  lemma ValidIff(name: string)
    ensures ValidateBranchName(name) == Valid <==>
            |Utf8(name)| <= 255 && GoodEnds(name) && AllGood(Split(name, '/'))
  {
    BranchNameIff(name);
    EmptyIsNotGood();
    hide ValidateBranchName, Utf8, GoodSegment, Split;
    assert name != "" ==> ("-" <= name <==> name[0] == '-') && (EndsWith(name, ".") <==> name[|name| - 1] == '.');
  }

  lemma Utf8Around(before: string, t: string, after: string)
    ensures |Utf8(before + t + after)| == |Utf8(before)| + |Utf8(t)| + |Utf8(after)|
  {
    Utf8Concat(before + t, after);
    Utf8Concat(before, t);
  }

  // A slash and two underscores.

  lemma TwinLengths(before: string, after: string)
    ensures |Utf8(before + "__" + after)| == |Utf8(before + "/" + after)| + 1
  {
    Utf8Around(before, "__", after);
    Utf8Around(before, "/", after);
    assert |Utf8Char('_')| == 1 && "__"[1..] == "_" && "_"[1..] == "" && |Utf8("__")| == 2;
    assert |Utf8Char('/')| == 1 && "/"[1..] == "" && |Utf8("/")| == 1;
  }

  /** Writing two underscores for the first slash of an accepted name gives an accepted name, if it is not too long. */
  lemma SlashTwin(before: string, after: string)
    requires '/' !in before && ValidateBranchName(before + "/" + after) == Valid
    requires |Utf8(before + "/" + after)| < 255
    ensures ValidateBranchName(before + "__" + after) == Valid
  {
    var a, b := before + "/" + after, before + "__" + after;
    ValidIff(a);
    ValidIff(b);
    TwinLengths(before, after);
    hide ValidateBranchName, Utf8, Split, Contains, EndsWith, IsBad;
    SplitOff(before, '/', after);
    var rest := Split(after, '/');
    assert Split(a, '/')[0] == before && Split(a, '/')[1] == rest[0] && Split(a, '/')[1..] == rest;
    GoodGlue(before, "__", rest[0]);
    SplitPrefix(before + "__", after, '/');
    assert b == (before + "__") + after;
    FirstPiece(after, '/');
    assert a[|a| - 1] == after[|after| - 1] == b[|b| - 1] && a[0] == before[0] == b[0];
  }
  /** And a slash for two underscores, where no segment comes out empty, hidden or locked. */
  lemma UnderscoreTwin(before: string, after: string)
    requires '/' !in before && '/' !in after && ValidateBranchName(before + "__" + after) == Valid
    requires before != "" && after != "" && after[0] != '.' && !EndsWith(before, ".lock")
    ensures ValidateBranchName(before + "/" + after) == Valid
  {
    var a, b := before + "__" + after, before + "/" + after;
    ValidIff(a);
    ValidIff(b);
    TwinLengths(before, after);
    hide ValidateBranchName, Utf8, Split, Contains, IsBad;
    SplitOff(a, '/', "");
    SplitOff(before, '/', after);
    SplitOff(after, '/', "");
    assert Split(a, '/')[0] == a && Split(b, '/') == [before, after];
    SidesHaveNoPairs(before, "__", after);
    assert a[|a| - 1] == after[|after| - 1] == b[|b| - 1] && a[0] == before[0] == b[0];
    assert a == (before + "__") + after;
    EdgesOfParts(before + "__", after);
  }

  // Characters shown as a dash.

  /** The pieces of two texts with `t` between them: the last of the one and the first of the other are glued. */
  function Glue(left: seq<string>, t: string, right: seq<string>): seq<string>
    requires left != [] && right != []
  {
    left[..|left| - 1] + [left[|left| - 1] + t + right[0]] + right[1..]
  }

  lemma GlueCons(c: char, rest: seq<string>, t: string, right: seq<string>)
    requires rest != [] && right != []
    ensures Glue([""] + rest, t, right) == [""] + Glue(rest, t, right)
    ensures var all := Glue(rest, t, right);
            Glue([[c] + rest[0]] + rest[1..], t, right) == [[c] + all[0]] + all[1..]
  {
    var left := [""] + rest;
    assert left[..|left| - 1] == [""] + rest[..|rest| - 1];
    var left', all := [[c] + rest[0]] + rest[1..], Glue(rest, t, right);
    if |rest| == 1 {
      assert [c] + rest[0] + t + right[0] == [c] + all[0];
    } else {
      assert left'[..|left'| - 1] == [[c] + rest[0]] + rest[1..|rest| - 1];
      assert all[1..] == rest[1..|rest| - 1] + [rest[|rest| - 1] + t + right[0]] + right[1..];
    }
  }

  lemma GlueAt(left: seq<string>, t: string, right: seq<string>)
    requires left != [] && right != []
    ensures var all := Glue(left, t, right);
            && |all| == |left| + |right| - 1 && all[|left| - 1] == left[|left| - 1] + t + right[0]
            && (forall i :: 0 <= i < |left| - 1 ==> all[i] == left[i])
            && (forall i :: |left| <= i < |all| ==> all[i] == right[i - |left| + 1])
  {
  }

  lemma SplitCons(c: char, s: string, sep: char)
    ensures var rest := Split(s, sep);
            Split([c] + s, sep) == if c == sep then [""] + rest else [[c] + rest[0]] + rest[1..]
  {
    assert ([c] + s)[1..] == s;
  }

  lemma {:induction false} SplitGlue(p: string, t: string, q: string, sep: char)
    requires sep !in t
    ensures Split(p + t + q, sep) == Glue(Split(p, sep), t, Split(q, sep))
  {
    if p == "" {
      assert p + t + q == t + q;
      SplitPrefix(t, q, sep);
      assert Split("", sep) == [""] && "" + t + Split(q, sep)[0] == t + Split(q, sep)[0];
    } else {
      hide Split, Glue;
      assert p + t + q == [p[0]] + (p[1..] + t + q) && p == [p[0]] + p[1..];
      SplitGlue(p[1..], t, q, sep);
      SplitCons(p[0], p[1..] + t + q, sep);
      SplitCons(p[0], p[1..], sep);
      GlueCons(p[0], Split(p[1..], sep), t, Split(q, sep));
    }
  }

  /** What replaces a character shown as a dash: another one. */
  function OtherDash(c: char): char
  {
    if c == '#' then '+' else '#'
  }

  lemma OtherDashFits(c: char)
    ensures OtherDash(c) != c && IsDashed(OtherDash(c)) && IsHarmless(OtherDash(c)) && OtherDash(c) !in "-/.@"
    ensures |Utf8([OtherDash(c)])| == 1 <= |Utf8([c])|
  {
    assert [c][1..] == "" && [OtherDash(c)][1..] == "";
  }

  lemma DashedSegment(x: string, c: char, y: string, r: char)
    requires GoodSegment(x + [c] + y) && IsHarmless(r)
    ensures GoodSegment(x + [r] + y)
  {
    var s := x + [c] + y;
    hide Contains, IsBad, IsHarmless;
    SidesHaveNoPairs(x, [c], y);
    EdgesOfParts(x + [c], y);
    EdgesOfParts(x, [c] + y);
    assert s == x + ([c] + y);
    GoodGlue(x, [r], y);
  }

  /** In an accepted name a character shown as a dash may be replaced by another. */
  lemma DashTwin(before: string, c: char, after: string)
    requires IsDashed(c) && ValidateBranchName(before + [c] + after) == Valid
    ensures ValidateBranchName(before + [OtherDash(c)] + after) == Valid
  {
    var r := OtherDash(c);
    var a, b := before + [c] + after, before + [r] + after;
    OtherDashFits(c);
    ValidIff(a);
    ValidIff(b);
    Utf8Around(before, [c], after);
    Utf8Around(before, [r], after);
    SplitGlue(before, [c], after, '/');
    SplitGlue(before, [r], after, '/');
    var (left, right) := (Split(before, '/'), Split(after, '/'));
    GlueAt(left, [c], right);
    GlueAt(left, [r], right);
    hide ValidateBranchName, Utf8, Split, Contains, EndsWith, IsBad, OtherDash, GoodSegment, IsHarmless, Glue;
    var k := |left| - 1;
    assert GoodSegment(Split(a, '/')[k]);
    DashedSegment(left[k], c, right[0], r);
    forall i | 0 <= i < |Split(b, '/')| && i != k ensures GoodSegment(Split(b, '/')[i]) {
      assert Split(b, '/')[i] == Split(a, '/')[i];
    }
    assert b[0] == if before == "" then r else a[0];
    assert b[|b| - 1] == if after == "" then r else a[|a| - 1];
    assert b[|before|] == r;
  }

  // The exact condition.

  /** The two underscores from `i` on can be read as a slash between two good segments. */
  predicate CanSplit(a: string, i: nat)
  {
    && 0 < i && i + 2 < |a| && a[i] == '_' && a[i + 1] == '_'
    && a[i + 2] != '.' && !EndsWith(a[..i], ".lock")
  }

  /** The name holds something another accepted name can write differently. */
  predicate IsAmbiguous(a: string)
  {
    (exists c :: c in a && IsDashed(c)) || '/' in a || exists i: nat | i < |a| :: CanSplit(a, i)
  }

  /** Some other accepted name has the directory of `a`. */
  ghost predicate SharesDirectory(a: string)
  {
    exists b :: b != a && ValidateBranchName(b) == Valid && Sanitize(b) == Sanitize(a)
  }

  lemma IsTwin(a: string, b: string)
    requires a != "" && b != "" && b != a && ValidateBranchName(b) == Valid && Flatten(a) == Flatten(b)
    ensures SharesDirectory(a)
  {
    FlattenIsEmpty(a);
    FlattenIsEmpty(b);
    assert Sanitize(b) == Sanitize(a);
  }

  lemma FirstSlash(a: string) returns (before: string, after: string)
    requires '/' in a
    ensures a == before + "/" + after && '/' !in before
  {
    if a[0] == '/' {
      before, after := "", a[1..];
    } else {
      before, after := FirstSlash(a[1..]);
      before := [a[0]] + before;
    }
    assert a == before + "/" + after;
  }

  lemma AmbiguousIsShared(a: string)
    requires ValidateBranchName(a) == Valid && IsAmbiguous(a) && ('/' in a ==> |Utf8(a)| < 255)
    ensures SharesDirectory(a)
  {
    ValidIff(a);
    hide ValidateBranchName, Flatten, Utf8, IsDashed, SharesDirectory, EndsWith;
    if c :| c in a && IsDashed(c) {
      var i :| 0 <= i < |a| && a[i] == c;
      var before, after := a[..i], a[i + 1..];
      assert a == before + [c] + after;
      OtherDashFits(c);
      DashTwin(before, c, after);
      FlattenDash(before, c, after);
      FlattenDash(before, OtherDash(c), after);
      assert (before + [OtherDash(c)] + after)[i] != a[i];
      IsTwin(a, before + [OtherDash(c)] + after);
    } else if '/' in a {
      var before, after := FirstSlash(a);
      SlashTwin(before, after);
      FlattenAround(before, after);
      assert |before + "__" + after| == |a| + 1;
      IsTwin(a, before + "__" + after);
    } else {
      var i: nat :| i < |a| && CanSplit(a, i);
      var before, after := a[..i], a[i + 2..];
      assert a == before + "__" + after;
      UnderscoreTwin(before, after);
      FlattenAround(before, after);
      assert |before + "/" + after| == |a| - 1;
      IsTwin(a, before + "/" + after);
    }
  }

  lemma {:induction false} DashIsShown(b: string, c: char)
    requires c in b && IsDashed(c)
    ensures '-' in Flatten(b)
  {
    var i :| 0 <= i < |b| && b[i] == c;
    assert b == b[..i] + [c] + b[i + 1..];
    FlattenDash(b[..i], c, b[i + 1..]);
  }

  lemma SplitHead(s: string)
    requires s != "" && s[0] != '/'
    ensures Split(s, '/')[0][..1] == [s[0]]
  {
  }

  lemma SlashedSides(before: string, after: string)
    requires '/' !in before && ValidateBranchName(before + "/" + after) == Valid
    ensures before != "" && !EndsWith(before, ".lock") && after != "" && after[0] != '.' && after[0] != '/'
  {
    ValidIff(before + "/" + after);
    SplitOff(before, '/', after);
    FirstPiece(after, '/');
    SplitHead(after);
    hide ValidateBranchName, Utf8, Split, Contains, EndsWith, IsBad;
    var segments := Split(before + "/" + after, '/');
    assert GoodSegment(segments[0]) && GoodSegment(segments[1]);
  }

  lemma FlattenHead(s: string)
    requires s != "" && s[0] != '/' && forall c :: c in s ==> !IsDashed(c)
    ensures Flatten(s) != "" && Flatten(s)[0] == s[0]
  {
    assert s[0] in s;
  }

  /** Where an accepted name has its first slash, its directory name has underscores that can be split. */
  lemma FlattenedSlashSplits(a: string, before: string, after: string)
    requires '/' !in before && IsPlainName(before) && ValidateBranchName(before + "/" + after) == Valid
    requires (forall c :: c in after ==> !IsDashed(c)) && a == Flatten(before + "/" + after)
    ensures |before| < |a| && CanSplit(a, |before|)
  {
    SlashedSides(before, after);
    FlattenAround(before, after);
    FlattenKeepsSlashless(before);
    FlattenHead(after);
    hide ValidateBranchName, EndsWith, Flatten, IsPlainName, IsDashed;
    var flat := Flatten(after);
    assert a == before + "__" + flat && a[..|before|] == before;
    assert a[|before|] == '_' && a[|before| + 1] == '_' && a[|before| + 2] == flat[0];
  }

  /** A name that another accepted name shares its directory with is ambiguous, whatever the lengths. */
  lemma SharedIsAmbiguous(a: string, b: string)
    requires a != b && ValidateBranchName(b) == Valid && Flatten(a) == Flatten(b)
    ensures IsAmbiguous(a)
  {
    hide ValidateBranchName, IsRepoChar, CanSplit, Flatten;
    if (forall c :: c in a ==> !IsDashed(c)) && '/' !in a {
      FlattenKeepsSlashless(a);
      forall c | c in b ensures !IsDashed(c) { if IsDashed(c) { DashIsShown(b, c); } }
      if '/' !in b {
        FlattenKeepsSlashless(b);
      } else {
        var before, after := FirstSlash(b);
        assert forall c :: c in before || c in after ==> c in b;
        FlattenedSlashSplits(a, before, after);
      }
    }
  }

  /**
   An accepted name shares its directory with another accepted name exactly when it holds a character that
   is shown as a dash, a slash, or two underscores that can be read as one. Only a name with a slash has to be
   short of the length limit.
   */
  lemma OwnDirectoryIff(a: string)
    requires ValidateBranchName(a) == Valid && ('/' in a ==> |Utf8(a)| < 255)
    ensures SharesDirectory(a) <==> IsAmbiguous(a)
  {
    ValidIff(a);
    hide ValidateBranchName, Utf8, IsAmbiguous, Flatten;
    if SharesDirectory(a) {
      var b :| b != a && ValidateBranchName(b) == Valid && Sanitize(b) == Sanitize(a);
      ValidIff(b);
      FlattenIsEmpty(a);
      FlattenIsEmpty(b);
      SharedIsAmbiguous(a, b);
    }
    if IsAmbiguous(a) { AmbiguousIsShared(a); }
  }

  lemma LettersAreGood(c: char)
    requires 'a' <= c <= 'z'
    ensures GoodSegment([c])
  {
    assert [c][0] != '.';
  }

  lemma ShortNameIsValid()
    ensures ValidateBranchName("a/b") == Valid && |Utf8("a/b")| < 255
  {
    ValidIff("a/b");
    hide ValidateBranchName;
    SplitOff("a", '/', "b");
    SplitOff("b", '/', "");
    assert "a" + "/" + "b" == "a/b" && Split("a/b", '/') == ["a", "b"];
    assert GoodSegment("a") && GoodSegment("b") by { LettersAreGood('a'); LettersAreGood('b'); }
    Utf8Around("a", "/", "b");
    assert |Utf8("a")| == 1 && |Utf8("/")| == 1 && |Utf8("b")| == 1;
  }

  /** Two accepted names with a slash and with two underscores, and one directory. */
  lemma SharedDirectoryWitness()
    ensures ValidateBranchName("a/b") == Valid && ValidateBranchName("a__b") == Valid
    ensures Sanitize("a/b") == Sanitize("a__b") == "a__b"
  {
    ShortNameIsValid();
    hide ValidateBranchName, Utf8;
    assert "a" + "/" + "b" == "a/b" && "a" + "__" + "b" == "a__b";
    SlashTwin("a", "b");
    FlattenAround("a", "b");
    FlattenKeepsSlashless("a__b");
  }

  /** A branch whose name is empty would get a directory with a name of its own. */
  lemma EmptyBranchDirectory()
    ensures Sanitize("") == "uow"
  {
  }

  // Slug-like names.

  predicate IsSeam(c: char)
  {
    c == '/' || c == '_'
  }

  /** A slug-like name: plain characters, and no underscore next to another or to a slash. */
  predicate IsSlug(s: string)
  {
    IsPlainName(s) && forall i :: 0 <= i < |s| - 1 ==> !(IsSeam(s[i]) && IsSeam(s[i + 1]))
  }

  lemma SlugTail(s: string)
    requires IsSlug(s) && s != ""
    ensures IsSlug(s[1..])
    ensures |s| > 1 ==> !(IsSeam(s[0]) && IsSeam(s[1..][0]))
  {
    hide IsRepoChar;
    assert forall i :: 0 <= i < |s| - 1 ==> s[1..][i] == s[i + 1];
  }

  lemma FlattenStart(s: string)
    requires IsPlainName(s)
    ensures Flatten(s) != "" && Flatten(s)[0] == '_' ==> s != "" && IsSeam(s[0])
  {
    if s != "" { assert s[0] in s; }
  }

  lemma {:induction false} FlattenInjectiveOnSlugs(a: string, b: string)
    requires IsSlug(a) && IsSlug(b) && Flatten(a) == Flatten(b)
    ensures a == b
  {
    if a != "" && b != "" {
      assert IsSlug(a[1..]) && IsSlug(b[1..]) by { SlugTail(a); SlugTail(b); }
      FlattenStart(a[1..]);
      FlattenStart(b[1..]);
      assert a[0] == b[0] by { assert Flatten(a)[0] == Flatten(b)[0] && Flatten(a)[1..] == Flatten(b)[1..]; }
      var k := if a[0] == '/' then 2 else 1;
      assert Flatten(a[1..]) == Flatten(a)[k..] && Flatten(b[1..]) == Flatten(b)[k..];
      FlattenInjectiveOnSlugs(a[1..], b[1..]);
      assert a == [a[0]] + a[1..] && b == [b[0]] + b[1..];
    }
  }

  /** Different slug-like branches have different directories. */
  lemma SlugsGetTheirOwnDirectories(a: string, b: string)
    requires a != "" && b != "" && IsSlug(a) && IsSlug(b)
    ensures Sanitize(a) == Sanitize(b) <==> a == b
  {
    FlattenIsEmpty(a);
    FlattenIsEmpty(b);
    hide Flatten, IsSlug;
    if Sanitize(a) == Sanitize(b) { FlattenInjectiveOnSlugs(a, b); }
  }

  // ---- Repository names ----

  ghost predicate GoodRepoSegment(s: string)
  {
    IsPlain(s) && forall c :: c in s ==> IsRepoChar(c)
  }

  /** A repository name is accepted exactly when it is two good segments. */
  lemma RepoNameIff(repo: string)
    ensures ValidateRepoName(repo) == Valid <==>
            && |Utf8(repo)| <= 201 && |Split(repo, '/')| == 2
            && GoodRepoSegment(Split(repo, '/')[0]) && GoodRepoSegment(Split(repo, '/')[1])
  {
    hide Utf8, IsRepoChar;
    var parts := Split(repo, '/');
    forall s ensures CheckRepoSegment(s) == Valid <==> GoodRepoSegment(s) {
      FirstCharIsFirst(s, c => !IsRepoChar(c));
    }
  }

  /** An accepted repository name resolves exactly two levels below any root. */
  lemma RepoIsTwoLevelsDown(repo: string, root: seq<string>)
    requires ValidateRepoName(repo) == Valid
    ensures Resolve(root, Split(repo, '/')) == root + Split(repo, '/') && |Split(repo, '/')| == 2
  {
    RepoNameIff(repo);
    PlainSegmentsOnlyPush(root, Split(repo, '/'));
  }

  // ---- The characters, and the reasons given ----

  lemma UpperTable(c: char)
    ensures 'A' <= c <= 'Z' <==> c in "ABCDEFGHIJKLMNOPQRSTUVWXYZ"
  {
    var table := "ABCDEFGHIJKLMNOPQRSTUVWXYZ";
    assert forall k :: 0 <= k < 26 ==> table[k] as int == 'A' as int + k;
    if 'A' <= c <= 'Z' { assert table[c as int - 'A' as int] == c; }
  }

  lemma LowerTable(c: char)
    ensures 'a' <= c <= 'z' <==> c in "abcdefghijklmnopqrstuvwxyz"
  {
    var table := "abcdefghijklmnopqrstuvwxyz";
    assert forall k :: 0 <= k < 26 ==> table[k] as int == 'a' as int + k;
    if 'a' <= c <= 'z' { assert table[c as int - 'a' as int] == c; }
  }

  lemma DigitTable(c: char)
    ensures '0' <= c <= '9' <==> c in "0123456789"
  {
    var table := "0123456789";
    assert forall k :: 0 <= k < 10 ==> table[k] as int == '0' as int + k;
    if '0' <= c <= '9' { assert table[c as int - '0' as int] == c; }
  }

  /** The characters of a repository name. */
  lemma RepoChars(c: char)
    ensures IsRepoChar(c) <==>
            || c in "ABCDEFGHIJKLMNOPQRSTUVWXYZ" || c in "abcdefghijklmnopqrstuvwxyz"
            || c in "0123456789" || c in "-_."
  {
    UpperTable(c);
    LowerTable(c);
    DigitTable(c);
  }

  /** The refused characters of a branch name: seven signs, the control characters and white space. */
  lemma BadChars(c: char)
    ensures c as int <= 0x20 ==> IsBad(c)
    ensures 0x20 < c as int < 0x7F ==> (IsBad(c) <==> c in "~^:?*[\\")
    ensures 0x7F <= c as int < 0xA0 ==> IsBad(c)
    ensures c as int >= 0xA0 ==> (IsBad(c) <==> IsWhitespace(c))
  {
    assert forall k :: k in "~^:?*[\\" ==> k as int < 0x80;
  }

  /** Segment `i` is the first that starts with a dot or ends in `.lock`. */
  ghost predicate IsFirstRefused(segments: seq<string>, i: nat)
  {
    && i < |segments| && ("." <= segments[i] || EndsWith(segments[i], ".lock"))
    && forall j :: 0 <= j < i ==> !("." <= segments[j]) && !EndsWith(segments[j], ".lock")
  }

  /** `c` is the first refused character. */
  ghost predicate IsFirstBad(name: string, c: char)
  {
    exists i :: 0 <= i < |name| && name[i] == c && IsBad(c) && forall j :: 0 <= j < i ==> !IsBad(name[j])
  }

  lemma {:induction false} CheckSegmentsReason(segments: seq<string>)
    ensures CheckSegments(segments) in {Valid, DotSegment, LockSegment}
    ensures CheckSegments(segments) != Valid ==>
              exists i: nat :: IsFirstRefused(segments, i) && (CheckSegments(segments) == DotSegment <==> "." <= segments[i])
    ensures CheckSegments(segments) == Valid ==> forall i: nat :: !IsFirstRefused(segments, i)
  {
    hide EndsWith;
    if segments != [] {
      if "." <= segments[0] || EndsWith(segments[0], ".lock") {
        assert IsFirstRefused(segments, 0);
      } else {
        CheckSegmentsReason(segments[1..]);
        forall i: nat ensures IsFirstRefused(segments[1..], i) <==> IsFirstRefused(segments, i + 1) {
          assert forall j :: 0 <= j < |segments| - 1 ==> segments[1..][j] == segments[j + 1];
        }
        forall i: nat | IsFirstRefused(segments, i) ensures i > 0 && IsFirstRefused(segments[1..], i - 1) {
          assert IsFirstRefused(segments[1..], i - 1) <==> IsFirstRefused(segments, i);
        }
        if i: nat :| IsFirstRefused(segments[1..], i) && (CheckSegments(segments) == DotSegment <==> "." <= segments[1..][i]) {
          assert segments[i + 1] == segments[1..][i];
        }
      }
    }
  }

  lemma OneCharacterEnds(name: string, x: char)
    requires name != ""
    ensures [x] <= name <==> name[0] == x
    ensures EndsWith(name, [x]) <==> name[|name| - 1] == x
  {
    assert name[|name| - 1..] == [name[|name| - 1]];
    assert name[..1] == [name[0]];
  }

  lemma EmptySegmentIs(name: string)
    requires name != ""
    ensures "/" <= name || EndsWith(name, "/") || Contains(name, "//") <==> "" in Split(name, '/')
  {
    EmptyPieces(name, '/');
    OneCharacterEnds(name, '/');
    assert ['/', '/'] == "//" && ['/'] == "/";
    hide Split, Contains, EndsWith;
    var segments := Split(name, '/');
    assert "" in segments <==> exists i :: 0 <= i < |segments| && segments[i] == "";
  }

  lemma FirstBadIs(name: string)
    ensures match FirstChar(name, c => IsBad(c))
            case Some(c) => c in name && IsBad(c) && IsFirstBad(name, c)
            case None => forall c :: c in name ==> !IsBad(c)
  {
    FirstCharIsFirst(name, c => IsBad(c));
    hide IsBad;
  }

  /** The verdict on a branch name, defect by defect in the order they are looked for. */
  lemma BranchVerdictIs(name: string)
    ensures var (v, segments) := (ValidateBranchName(name), Split(name, '/'));
            if name == "" then v == Empty
            else if |Utf8(name)| > 255 then v == TooLong
            else if name[0] == '-' then v == LeadingDash
            else if "" in segments then v == EmptySegment
            else if name[|name| - 1] == '.' then v == TrailingDot
            else if Contains(name, "..") then v == DoubleDot
            else if Contains(name, "@{") || name == "@" then v == AtBrace
            else if exists c :: c in name && IsBad(c) then v.BadCharacter? && IsFirstBad(name, v.c)
            else if exists i: nat :: IsFirstRefused(segments, i) then
              && v in {DotSegment, LockSegment}
              && exists i: nat :: IsFirstRefused(segments, i) && (v == DotSegment <==> "." <= segments[i])
            else v == Valid
  {
    if name != "" {
      EmptySegmentIs(name);
      OneCharacterEnds(name, '-');
      OneCharacterEnds(name, '.');
      assert ['-'] == "-" && ['.'] == ".";
      FirstBadIs(name);
      CheckSegmentsReason(Split(name, '/'));
      hide Utf8, Split, Contains, IsBad, EndsWith, CheckSegments, FirstChar, IsFirstRefused, IsFirstBad;
    }
  }

  /** What the reason given for a segment of a repository name says of it. */
  ghost predicate SegmentVerdict(s: string, verdict: Verdict)
  {
    match verdict
    case EmptySegment => s == ""
    case DotName => s == "." || s == ".."
    case BadCharacter(c) =>
      && s != "" && s != "." && s != ".."
      && exists i :: 0 <= i < |s| && s[i] == c && !IsRepoChar(c) && forall j :: 0 <= j < i ==> IsRepoChar(s[j])
    case Valid => GoodRepoSegment(s)
    case _ => false
  }

  lemma SegmentVerdictIs(s: string)
    ensures SegmentVerdict(s, CheckRepoSegment(s))
  {
    FirstCharIsFirst(s, c => !IsRepoChar(c));
    hide IsRepoChar;
  }

  /** The reason given for a repository name: its length, its number of segments, then its first refused segment. */
  lemma RepoVerdictIs(repo: string)
    ensures var (verdict, parts) := (ValidateRepoName(repo), Split(repo, '/'));
            if |Utf8(repo)| > 201 then verdict == TooLong
            else if |parts| != 2 then verdict == WrongParts
            else if GoodRepoSegment(parts[0]) then SegmentVerdict(parts[1], verdict)
            else SegmentVerdict(parts[0], verdict) && verdict != Valid
  {
    hide Utf8, Split, IsRepoChar;
    var parts := Split(repo, '/');
    if |parts| == 2 {
      SegmentVerdictIs(parts[0]);
      SegmentVerdictIs(parts[1]);
    }
  }
}
