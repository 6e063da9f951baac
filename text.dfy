/**
 * The Python string operations the applications rely on: str.isspace,
 * str.strip, str.lower, str.isalnum, str.split / ' '.join, str.replace,
 * str(n) for a natural number, and os.path.splitext / rsplit('.', 1) as the
 * file-name checks use them.
 *
 * Character classes cover ASCII (and, for whitespace, the four C0 separators
 * Python also treats as whitespace); the rest of Unicode is not modelled.
 */
module Text {

  /** str.isspace, restricted to the characters listed above. */
  predicate IsSpace(c: char) {
    c == ' ' || c == '\t' || c == '\n' || c == '\r' || c == '\U{000B}' || c == '\U{000C}'
    || ('\U{001C}' <= c <= '\U{001F}')
  }

  /** The regular-expression class \d, restricted to ASCII. */
  predicate IsDigit(c: char) {
    '0' <= c <= '9'
  }

  /** str.isalnum, restricted to ASCII letters and digits. */
  predicate IsAlnum(c: char) {
    IsDigit(c) || 'a' <= c <= 'z' || 'A' <= c <= 'Z'
  }

  predicate AllDigits(s: string) {
    forall i :: 0 <= i < |s| ==> IsDigit(s[i])
  }

  predicate NoSpace(s: string) {
    forall i :: 0 <= i < |s| ==> !IsSpace(s[i])
  }

  // ---------------------------------------------------------------------------
  // Case

  function LowerChar(c: char): char {
    if 'A' <= c <= 'Z' then (c as int + 32) as char else c
  }

  /** str.lower on ASCII letters. */
  function Lower(s: string): (r: string)
    ensures |r| == |s|
    ensures forall i :: 0 <= i < |s| ==> r[i] == LowerChar(s[i])
  {
    if s == [] then [] else [LowerChar(s[0])] + Lower(s[1..])
  }

  /** Lower-casing twice is lower-casing once. */
  lemma LowerIdempotent(s: string)
    ensures Lower(Lower(s)) == Lower(s)
  {
  }

  // ---------------------------------------------------------------------------
  // Whitespace trimming: str.strip

  /** The index of the first non-whitespace character of s, or |s|. */
  function SkipSpace(s: string): (i: nat)
    ensures i <= |s|
    ensures forall k :: 0 <= k < i ==> IsSpace(s[k])
    ensures i < |s| ==> !IsSpace(s[i])
  {
    if s == [] || !IsSpace(s[0]) then 0 else 1 + SkipSpace(s[1..])
  }

  /** s without its trailing whitespace. */
  function TrimEnd(s: string): (r: string)
    ensures |r| <= |s| && r == s[..|r|]
    ensures forall k :: |r| <= k < |s| ==> IsSpace(s[k])
    ensures r == [] || !IsSpace(r[|r| - 1])
  {
    if s != [] && IsSpace(s[|s| - 1]) then TrimEnd(s[..|s| - 1]) else s
  }

  /** str.strip(): the longest infix that neither starts nor ends with whitespace,
      cut out of s by removing only whitespace on either side. */
  function Strip(s: string): (r: string)
    ensures var i := SkipSpace(s);
            i + |r| <= |s| && r == s[i..i + |r|]
            && (forall k :: 0 <= k < i ==> IsSpace(s[k]))
            && (forall k :: i + |r| <= k < |s| ==> IsSpace(s[k]))
    ensures r == [] || (!IsSpace(r[0]) && !IsSpace(r[|r| - 1]))
  {
    var i := SkipSpace(s);
    var t := TrimEnd(s[i..]);
    assert t == s[i..][..|t|];
    t
  }

  /** A string that neither starts nor ends with whitespace is its own strip. */
  lemma StripUnpadded(s: string)
    requires s == [] || (!IsSpace(s[0]) && !IsSpace(s[|s| - 1]))
    ensures Strip(s) == s
  {
    assert SkipSpace(s) == 0;
    assert s[0..] == s;
  }

  /** A string of digits has no whitespace to strip. */
  lemma StripDigits(s: string)
    requires AllDigits(s)
    ensures Strip(s) == s
  {
    StripUnpadded(s);
  }

  // ---------------------------------------------------------------------------
  // Character removal: str.replace(c, "")

  function RemoveChar(s: string, c: char): (r: string)
    ensures |r| <= |s|
    ensures forall k :: 0 <= k < |r| ==> r[k] != c
  {
    if s == [] then [] else (if s[0] == c then [] else [s[0]]) + RemoveChar(s[1..], c)
  }

  /** Removal works character by character: one character goes exactly when
      it is c, and removing from two strings joined is removing from each. */
  lemma {:induction false} RemoveCharAppend(a: string, b: string, c: char)
    ensures forall x :: RemoveChar([x], c) == if x == c then [] else [x]
    ensures RemoveChar(a + b, c) == RemoveChar(a, c) + RemoveChar(b, c)
  {
    forall x: char
      ensures RemoveChar([x], c) == if x == c then [] else [x]
    {
      assert [x][1..] == [];
    }
    if a == [] {
      assert a + b == b;
    } else {
      var x := if a[0] == c then [] else [a[0]];
      assert (a + b)[1..] == a[1..] + b;
      assert RemoveChar(a + b, c) == x + RemoveChar(a[1..] + b, c);
      RemoveCharAppend(a[1..], b, c);
      AppendAssoc(x, RemoveChar(a[1..], c), RemoveChar(b, c));
    }
  }

  /** Removing a character that does not occur changes nothing. */
  lemma {:induction false} RemoveAbsentChar(s: string, c: char)
    requires forall k :: 0 <= k < |s| ==> s[k] != c
    ensures RemoveChar(s, c) == s
  {
    if s != [] {
      RemoveAbsentChar(s[1..], c);
    }
  }

  /** s with every whitespace character deleted. */
  function RemoveSpaces(s: string): (r: string)
    ensures NoSpace(r)
    ensures |r| <= |s|
  {
    if s == [] then [] else (if IsSpace(s[0]) then [] else [s[0]]) + RemoveSpaces(s[1..])
  }

  lemma {:induction false} RemoveSpacesAppend(a: string, b: string)
    ensures RemoveSpaces(a + b) == RemoveSpaces(a) + RemoveSpaces(b)
  {
    if a == [] {
      assert a + b == b;
    } else {
      var x := if IsSpace(a[0]) then [] else [a[0]];
      assert (a + b)[1..] == a[1..] + b;
      assert RemoveSpaces(a + b) == x + RemoveSpaces(a[1..] + b);
      RemoveSpacesAppend(a[1..], b);
      AppendAssoc(x, RemoveSpaces(a[1..]), RemoveSpaces(b));
    }
  }

  /** Joining is associative. */
  lemma AppendAssoc<T>(x: seq<T>, y: seq<T>, z: seq<T>)
    ensures x + (y + z) == (x + y) + z
  {
  }

  /** In a string whose only whitespace is ' ', deleting ' ' deletes all whitespace. */
  lemma {:induction false} RemoveBlankIsRemoveSpaces(s: string)
    requires forall k :: 0 <= k < |s| && IsSpace(s[k]) ==> s[k] == ' '
    ensures RemoveChar(s, ' ') == RemoveSpaces(s)
  {
    if s != [] {
      RemoveBlankIsRemoveSpaces(s[1..]);
    }
  }

  /** s with every occurrence of character a replaced by b (str.replace(a, b)). */
  function ReplaceChar(s: string, a: char, b: char): (r: string)
    ensures |r| == |s|
    ensures forall k :: 0 <= k < |s| ==> r[k] == if s[k] == a then b else s[k]
  {
    if s == [] then [] else [if s[0] == a then b else s[0]] + ReplaceChar(s[1..], a, b)
  }

  /** Replacing one whitespace character by another keeps the non-whitespace text. */
  lemma {:induction false} ReplaceSpaceKeepsText(s: string, a: char, b: char)
    requires IsSpace(a) && IsSpace(b)
    ensures RemoveSpaces(ReplaceChar(s, a, b)) == RemoveSpaces(s)
  {
    if s != [] {
      ReplaceSpaceKeepsText(s[1..], a, b);
    }
  }

  // ---------------------------------------------------------------------------
  // Word splitting and joining: ' '.join(s.split())

  /** The length of the run of non-whitespace characters that starts s. */
  function WordLength(s: string): (n: nat)
    ensures n <= |s|
    ensures forall k :: 0 <= k < n ==> !IsSpace(s[k])
    ensures n < |s| ==> IsSpace(s[n])
  {
    if s == [] || IsSpace(s[0]) then 0 else 1 + WordLength(s[1..])
  }

  /** str.split() with no separator: the maximal runs of non-whitespace. */
  function Words(s: string): (ws: seq<string>)
    ensures forall i :: 0 <= i < |ws| ==> ws[i] != [] && NoSpace(ws[i])
    decreases |s|
  {
    if s == [] then []
    else if IsSpace(s[0]) then Words(s[1..])
    else
      var n := WordLength(s);
      [s[..n]] + Words(s[n..])
  }

  /** A string without whitespace is one word. */
  lemma WordsOfWord(s: string)
    requires s != [] && NoSpace(s)
    ensures Words(s) == [s]
  {
    assert WordLength(s) == |s|;
    assert s[..|s|] == s;
    assert s[|s|..] == [];
  }

  /** A word never runs past a whitespace character. */
  lemma {:induction false} WordLengthStops(a: string, w: char, b: string)
    requires IsSpace(w)
    ensures WordLength(a + [w] + b) == WordLength(a)
  {
    if a == [] {
      assert (a + [w] + b)[0] == w;
    } else {
      assert (a + [w] + b)[0] == a[0];
      assert (a + [w] + b)[1..] == a[1..] + [w] + b;
      WordLengthStops(a[1..], w, b);
    }
  }

  /** Splitting at a whitespace character: the words of the two sides, one
      after the other. */
  lemma {:induction false} WordsSplit(a: string, w: char, b: string)
    requires IsSpace(w)
    ensures Words(a + [w] + b) == Words(a) + Words(b)
    decreases |a|
  {
    var s := a + [w] + b;
    if a == [] {
      assert s == [w] + b;
      assert s[1..] == b;
    } else if IsSpace(a[0]) {
      assert s[0] == a[0];
      assert s[1..] == a[1..] + [w] + b;
      WordsSplit(a[1..], w, b);
    } else {
      var n := WordLength(a);
      WordLengthStops(a, w, b);
      assert s[0] == a[0];
      assert s[..n] == a[..n];
      assert s[n..] == a[n..] + [w] + b;
      WordsSplit(a[n..], w, b);
    }
  }

  /** ' '.join(ws). */
  function JoinWithBlank(ws: seq<string>): string {
    if ws == [] then "" else if |ws| == 1 then ws[0] else ws[0] + " " + JoinWithBlank(ws[1..])
  }

  /** All the strings of ws, concatenated. */
  function Concat(ws: seq<string>): string {
    if ws == [] then "" else ws[0] + Concat(ws[1..])
  }

  /** ' '.join(s.split()): runs of whitespace become one blank, and the ends are trimmed. */
  function CollapseSpaces(s: string): string {
    JoinWithBlank(Words(s))
  }

  /** The shape CollapseSpaces produces: the only whitespace is ' ', never at an end,
      never two in a row. */
  predicate Collapsed(r: string) {
    && (forall k :: 0 <= k < |r| && IsSpace(r[k]) ==> r[k] == ' ')
    && (r == [] || (r[0] != ' ' && r[|r| - 1] != ' '))
    && (forall k :: 0 <= k < |r| - 1 ==> !BlankPair(r, k))
  }

  /** Two blanks in a row at k. */
  predicate BlankPair(r: string, k: int)
    requires 0 <= k < |r| - 1
  {
    r[k] == ' ' && r[k + 1] == ' '
  }

  /** A word, a blank and a collapsed non-empty string make a collapsed string. */
  lemma WordBlankCollapsed(w: string, rest: string)
    requires w != [] && NoSpace(w)
    requires rest != [] && Collapsed(rest)
    ensures Collapsed(w + " " + rest)
  {
    var r := w + " " + rest;
    assert forall k :: 0 <= k < |w| ==> r[k] == w[k];
    assert r[|w|] == ' ';
    assert forall k :: |w| < k < |r| ==> r[k] == rest[k - |w| - 1];
    assert forall k :: 0 <= k < |r| && IsSpace(r[k]) ==> r[k] == ' ';
    assert forall k :: 0 <= k < |r| - 1 ==> !BlankPair(r, k) by {
      forall k | 0 <= k < |r| - 1
        ensures !BlankPair(r, k)
      {
        if k >= |w| + 1 {
          assert !BlankPair(rest, k - |w| - 1);
        }
      }
    }
    assert r[|r| - 1] == rest[|rest| - 1];
    assert r[0] == w[0];
  }

  lemma {:induction false} JoinCollapsed(ws: seq<string>)
    requires forall i :: 0 <= i < |ws| ==> ws[i] != [] && NoSpace(ws[i])
    ensures Collapsed(JoinWithBlank(ws))
    ensures RemoveSpaces(JoinWithBlank(ws)) == Concat(ws)
  {
    if |ws| == 1 {
      RemoveAbsentSpaces(ws[0]);
      assert Concat(ws) == ws[0] + Concat([]);
      assert ws[0][0] != ' ' && ws[0][|ws[0]| - 1] != ' ';
    } else if |ws| > 1 {
      var rest := JoinWithBlank(ws[1..]);
      JoinCollapsed(ws[1..]);
      JoinNonEmpty(ws[1..]);
      assert JoinWithBlank(ws) == ws[0] + " " + rest;
      WordBlankCollapsed(ws[0], rest);
      RemoveSpacesJoin(ws[0], rest);
      assert Concat(ws) == ws[0] + Concat(ws[1..]);
    }
  }

  /** The blank joining a word to the rest is the only space removed. */
  lemma RemoveSpacesJoin(w: string, rest: string)
    requires NoSpace(w)
    ensures RemoveSpaces(w + " " + rest) == w + RemoveSpaces(rest)
  {
    var blank := " ";
    assert RemoveSpaces(blank) == [] by {
      assert IsSpace(blank[0]) && blank[1..] == [];
    }
    RemoveSpacesAppend(w, blank);
    RemoveAbsentSpaces(w);
    assert RemoveSpaces(w + blank) == w;
    RemoveSpacesAppend(w + blank, rest);
  }

  lemma {:induction false} JoinNonEmpty(ws: seq<string>)
    requires |ws| >= 1 && forall i :: 0 <= i < |ws| ==> ws[i] != []
    ensures JoinWithBlank(ws) != []
  {
    if |ws| > 1 {
      assert |JoinWithBlank(ws)| >= |ws[0]|;
    }
  }

  lemma {:induction false} RemoveAbsentSpaces(s: string)
    requires NoSpace(s)
    ensures RemoveSpaces(s) == s
  {
    if s != [] {
      RemoveAbsentSpaces(s[1..]);
    }
  }

  /** The words of s, concatenated, are exactly s without its whitespace. */
  lemma {:induction false} WordsKeepText(s: string)
    ensures Concat(Words(s)) == RemoveSpaces(s)
    decreases |s|
  {
    if s != [] {
      if IsSpace(s[0]) {
        WordsKeepText(s[1..]);
      } else {
        var n := WordLength(s);
        assert s == s[..n] + s[n..];
        WordsKeepText(s[n..]);
        RemoveSpacesAppend(s[..n], s[n..]);
        RemoveAbsentSpaces(s[..n]);
      }
    }
  }

  /** Splitting words joined by blanks gives the words back. */
  lemma {:induction false} WordsOfJoin(ws: seq<string>)
    requires forall i :: 0 <= i < |ws| ==> ws[i] != [] && NoSpace(ws[i])
    ensures Words(JoinWithBlank(ws)) == ws
  {
    if |ws| == 1 {
      WordsOfWord(ws[0]);
    } else if |ws| > 1 {
      var rest := JoinWithBlank(ws[1..]);
      WordsOfJoin(ws[1..]);
      assert JoinWithBlank(ws) == ws[0] + [' '] + rest;
      WordsSplit(ws[0], ' ', rest);
      WordsOfWord(ws[0]);
    }
  }

  /** After a blank inside a collapsed string the rest is collapsed and
      starts with a word. */
  lemma CollapsedAfterBlank(r: string, n: nat)
    requires Collapsed(r) && n < |r| && IsSpace(r[n])
    ensures n + 1 < |r| && !IsSpace(r[n + 1])
    ensures r[n] == ' ' && Collapsed(r[n + 1..])
  {
    var rest := r[n + 1..];
    assert r[n] == ' ';
    assert n + 1 < |r| && !BlankPair(r, n);
    assert forall k :: 0 <= k < |rest| ==> rest[k] == r[n + 1 + k];
    assert forall k :: 0 <= k < |rest| - 1 ==> !BlankPair(rest, k) by {
      forall k | 0 <= k < |rest| - 1
        ensures !BlankPair(rest, k)
      {
        assert !BlankPair(r, n + 1 + k);
      }
    }
  }

  /** A collapsed string is its words joined by blanks. */
  lemma {:induction false} CollapsedIsJoin(r: string)
    requires Collapsed(r)
    ensures JoinWithBlank(Words(r)) == r
    decreases |r|
  {
    if r != [] {
      var n := WordLength(r);
      if n == |r| {
        assert Words(r) == [r[..n]] + Words(r[n..]) by {
          assert !IsSpace(r[0]);
        }
        assert r[..n] == r && Words(r[n..]) == [];
      } else {
        var rest := r[n + 1..];
        CollapsedAfterBlank(r, n);
        SplitAtBlank(r, n);
        FirstWordThenBlank(r, n);
        CollapsedIsJoin(rest);
        JoinCons(r[..n], Words(rest));
      }
    }
  }

  /** In a collapsed string the first word is followed by a blank and the
      words of the non-empty rest. */
  lemma FirstWordThenBlank(r: string, n: nat)
    requires Collapsed(r) && r != [] && n == WordLength(r) && n < |r|
    ensures Words(r) == [r[..n]] + Words(r[n + 1..])
    ensures Words(r[n + 1..]) != []
  {
    var rest := r[n + 1..];
    assert Words(r) == [r[..n]] + Words(r[n..]) by {
      assert !IsSpace(r[0]);
    }
    CollapsedAfterBlank(r, n);
    assert r[n..][1..] == rest;
    assert Words(rest) == [rest[..WordLength(rest)]] + Words(rest[WordLength(rest)..]);
  }

  /** A string is what comes before a blank, the blank, and what follows. */
  lemma SplitAtBlank(r: string, n: nat)
    requires n < |r| && r[n] == ' '
    ensures r == r[..n] + " " + r[n + 1..]
  {
    assert r[n..] == [r[n]] + r[n + 1..];
    assert r == r[..n] + r[n..];
  }

  lemma JoinCons(w: string, ws: seq<string>)
    requires ws != []
    ensures JoinWithBlank([w] + ws) == w + " " + JoinWithBlank(ws)
  {
    assert ([w] + ws)[1..] == ws;
  }

  /** ' '.join(s.split()) has the collapsed shape, has the words of s and so
      keeps every non-whitespace character of s in order; the collapsed shape
      and the words determine it, so collapsing twice is collapsing once. */
  lemma CollapseSpacesSpec(s: string)
    ensures Collapsed(CollapseSpaces(s))
    ensures Words(CollapseSpaces(s)) == Words(s)
    ensures RemoveSpaces(CollapseSpaces(s)) == RemoveSpaces(s)
    ensures forall r :: Collapsed(r) && Words(r) == Words(s) ==> r == CollapseSpaces(s)
    ensures CollapseSpaces(CollapseSpaces(s)) == CollapseSpaces(s)
  {
    JoinCollapsed(Words(s));
    WordsKeepText(s);
    WordsOfJoin(Words(s));
    forall r | Collapsed(r) && Words(r) == Words(s)
      ensures r == CollapseSpaces(s)
    {
      CollapsedIsJoin(r);
    }
  }

  // ---------------------------------------------------------------------------
  // Output names

  /** ''.join(c if c.isalnum() else '_' for c in s). */
  function SafeName(s: string): (r: string)
    ensures |r| == |s|
    ensures forall k :: 0 <= k < |s| ==> r[k] == if IsAlnum(s[k]) then s[k] else '_'
  {
    if s == [] then [] else [if IsAlnum(s[0]) then s[0] else '_'] + SafeName(s[1..])
  }

  /** Sanitising is idempotent, and its result holds only letters, digits and '_'. */
  lemma SafeNameSpec(s: string)
    ensures SafeName(SafeName(s)) == SafeName(s)
    ensures forall k :: 0 <= k < |s| ==> IsAlnum(SafeName(s)[k]) || SafeName(s)[k] == '_'
  {
  }

  /** Two different site names can share one output name. */
  lemma SafeNameCollides()
    ensures "A B" != "A-B" && SafeName("A B") == SafeName("A-B")
  {
  }

  // ---------------------------------------------------------------------------
  // Decimal numerals: str(n)

  function DigitChar(d: nat): char
    requires d < 10
  {
    ('0' as int + d) as char
  }

  /** str(n) for a natural number. */
  function Decimal(n: nat): (r: string)
    ensures |r| >= 1 && AllDigits(r)
    ensures n >= 10 ==> |r| >= 2
  {
    if n < 10 then [DigitChar(n)] else Decimal(n / 10) + [DigitChar(n % 10)]
  }

  /** Different numbers have different numerals. */
  lemma {:induction false} DecimalInjective(a: nat, b: nat)
    requires Decimal(a) == Decimal(b)
    ensures a == b
  {
    if a >= 10 && b >= 10 {
      var da, db := Decimal(a), Decimal(b);
      assert da[|da| - 1] == DigitChar(a % 10);
      assert db[|db| - 1] == DigitChar(b % 10);
      assert da[..|da| - 1] == Decimal(a / 10);
      assert db[..|db| - 1] == Decimal(b / 10);
      DecimalInjective(a / 10, b / 10);
    }
  }

  // ---------------------------------------------------------------------------
  // File names

  /** Everything after the last c, or all of s when c does not occur: the
      last piece of s.rsplit(c, 1), and os.path.basename for c == '/'. */
  function AfterLast(s: string, c: char): (r: string)
    ensures |r| <= |s| && r == s[|s| - |r|..]
    ensures c !in r
    ensures |r| == |s| <==> c !in s
    ensures |r| < |s| ==> s[|s| - |r| - 1] == c
  {
    if s == [] || s[|s| - 1] == c then [] else AfterLast(s[..|s| - 1], c) + [s[|s| - 1]]
  }

  /** allowed_file: the name has a '.', and what follows the last one, lower-cased,
      is one of the allowed extensions. */
  function AllowedFile(filename: string, extensions: set<string>): bool {
    '.' in filename && Lower(AfterLast(filename, '.')) in extensions
  }

  /** The extension after the last dot is what decides. */
  lemma {:induction false} AfterLastDotOf(stem: string, ext: string)
    requires '.' !in ext
    ensures AfterLast(stem + "." + ext, '.') == ext
    decreases |ext|
  {
    if ext == [] {
      assert (stem + "." + ext)[|stem + "." + ext| - 1] == '.';
    } else {
      var s := stem + "." + ext;
      assert s[..|s| - 1] == stem + "." + ext[..|ext| - 1];
      AfterLastDotOf(stem, ext[..|ext| - 1]);
      assert s[|s| - 1] == ext[|ext| - 1];
    }
  }

  lemma AllowedFileByExtension(stem: string, ext: string, extensions: set<string>)
    requires '.' !in ext
    ensures AllowedFile(stem + "." + ext, extensions) == (Lower(ext) in extensions)
  {
    AfterLastDotOf(stem, ext);
    assert (stem + "." + ext)[|stem|] == '.';
  }

  /** A name without a dot is never allowed. */
  lemma NoDotNotAllowed(filename: string, extensions: set<string>)
    requires '.' !in filename
    ensures !AllowedFile(filename, extensions)
  {
  }
}
