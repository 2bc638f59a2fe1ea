/** The handful of Python `str` operations the pipeline and the pages rely on,
    written out over `seq<char>`: whitespace as `str.isspace()` (and the `\s`
    class of `re`) defines it, ASCII lower-casing, `strip`, `split()` on
    whitespace, `split(sep)`, `sep.join(...)` and the code-point order that
    `sorted` uses on strings. */
module Text {
  import opened Collections

  /** Python's `str.isspace()`, which is also what `\s` matches in a text
      pattern: the ASCII controls 0x09-0x0D and 0x1C-0x1F, the space, NEL,
      NO-BREAK SPACE and the Unicode space separators. */
  predicate IsSpace(c: char)
  {
    || ('\U{9}' <= c <= '\U{D}')
    || ('\U{1C}' <= c <= ' ')
    || c == '\U{85}' || c == '\U{A0}' || c == '\U{1680}'
    || ('\U{2000}' <= c <= '\U{200A}')
    || c == '\U{2028}' || c == '\U{2029}' || c == '\U{202F}'
    || c == '\U{205F}' || c == '\U{3000}'
  }

  /** The class `[a-zA-Z]`. */
  predicate IsAsciiLetter(c: char)
  {
    'a' <= c <= 'z' || 'A' <= c <= 'Z'
  }

  /** `c.lower()` restricted to ASCII: upper-case letters map to lower case,
      every other character is left alone. */
  function LowerChar(c: char): (d: char)
    ensures IsAsciiLetter(c) ==> 'a' <= d <= 'z'
    ensures IsAsciiLetter(d) == IsAsciiLetter(c)
    ensures IsSpace(d) == IsSpace(c)
    ensures !IsAsciiLetter(c) ==> d == c
  {
    if 'A' <= c <= 'Z' then (c as int - 'A' as int + 'a' as int) as char else c
  }

  function Lower(s: string): (r: string)
  {
    seq(|s|, i requires 0 <= i < |s| => LowerChar(s[i]))
  }

  /** Lower-casing works character by character, so it distributes over
      concatenation. */
  lemma LowerAppend(a: string, b: string)
    ensures Lower(a + b) == Lower(a) + Lower(b)
  {
    assert forall i :: 0 <= i < |a + b| ==> Lower(a + b)[i] == (Lower(a) + Lower(b))[i] by {
      forall i | 0 <= i < |a + b| ensures Lower(a + b)[i] == (Lower(a) + Lower(b))[i] {
        if i >= |a| {
          assert (a + b)[i] == b[i - |a|];
        }
      }
    }
  }

  /** Lower-casing twice is lower-casing once. */
  lemma LowerIdempotent(s: string)
    ensures Lower(Lower(s)) == Lower(s)
  {
    forall i | 0 <= i < |s| ensures Lower(Lower(s))[i] == Lower(s)[i] {
      assert Lower(s)[i] == LowerChar(s[i]);
    }
  }

  /** `s.lstrip(chars)`, the characters to remove given as a predicate. */
  function TrimStart(s: string, drop: char -> bool): (r: string)
    ensures |r| <= |s| && r == s[|s| - |r|..]
    ensures r == [] || !drop(r[0])
  {
    if s != [] && drop(s[0]) then TrimStart(s[1..], drop) else s
  }

  /** `s.rstrip(chars)`. */
  function TrimEnd(s: string, drop: char -> bool): (r: string)
    ensures |r| <= |s| && r == s[..|r|]
    ensures r == [] || !drop(r[|r| - 1])
  {
    if s != [] && drop(s[|s| - 1]) then TrimEnd(s[..|s| - 1], drop) else s
  }

  /** `s.strip(chars)`: a contiguous slice of `s` with the dropped characters
      removed from both ends. */
  function Strip(s: string, drop: char -> bool): (r: string)
    ensures |r| <= |s|
    ensures r == [] || (!drop(r[0]) && !drop(r[|r| - 1]))
    ensures s == [] || (!drop(s[0]) && !drop(s[|s| - 1])) ==> r == s
  {
    TrimEnd(TrimStart(s, drop), drop)
  }

  /** `lstrip` removes a run of dropped characters from the front. */
  lemma {:induction false} TrimStartDropped(s: string, drop: char -> bool)
    ensures forall i :: 0 <= i < |s| - |TrimStart(s, drop)| ==> drop(s[i])
  {
    if s != [] && drop(s[0]) {
      TrimStartDropped(s[1..], drop);
      forall i | 0 < i < |s| - |TrimStart(s, drop)| ensures drop(s[i]) {
        assert s[i] == s[1..][i - 1];
      }
    }
  }

  /** `rstrip` removes a run of dropped characters from the back. */
  lemma {:induction false} TrimEndDropped(s: string, drop: char -> bool)
    ensures forall i :: |TrimEnd(s, drop)| <= i < |s| ==> drop(s[i])
  {
    if s != [] && drop(s[|s| - 1]) {
      TrimEndDropped(s[..|s| - 1], drop);
      forall i | |TrimEnd(s, drop)| <= i < |s| - 1 ensures drop(s[i]) {
        assert s[i] == s[..|s| - 1][i];
      }
    }
  }

  /** What is dropped at the back of a suffix is dropped at the back of the
      whole string. */
  lemma SuffixDropped(s: string, k: nat, n: nat, drop: char -> bool)
    requires k <= |s| && n <= |s| - k
    requires forall i :: n <= i < |s[k..]| ==> drop(s[k..][i])
    ensures forall i :: k + n <= i < |s| ==> drop(s[i])
  {
    forall i | k + n <= i < |s| ensures drop(s[i]) {
      assert s[i] == s[k..][i - k];
    }
  }

  /** `s.strip(chars)` is the slice `s[k..m]` left once the dropped
      characters before `k` and from `m` on are removed. */
  lemma StripSlice(s: string, drop: char -> bool) returns (k: nat, m: nat)
    ensures k <= m <= |s| && Strip(s, drop) == s[k..m]
    ensures forall i :: 0 <= i < k ==> drop(s[i])
    ensures forall i :: m <= i < |s| ==> drop(s[i])
  {
    var t := TrimStart(s, drop);
    var r := TrimEnd(t, drop);
    k := |s| - |t|;
    m := k + |r|;
    TrimStartDropped(s, drop);
    TrimEndDropped(t, drop);
    SuffixDropped(s, k, |r|, drop);
    assert r == s[k..][..|r|] == s[k..m];
  }

  /** Stripping only removes characters. */
  lemma StripKeeps(s: string, drop: char -> bool, c: char)
    requires c in Strip(s, drop)
    ensures c in s
  {
    var t := TrimStart(s, drop);
    var r := TrimEnd(t, drop);
    var i :| 0 <= i < |r| && r[i] == c;
    assert t[i] == c;
    assert s[|s| - |t| + i] == c;
  }

  /** Lower-casing and stripping commute when lower-casing does not change
      whether a character is stripped. */
  lemma StripLower(s: string, drop: char -> bool)
    requires forall c :: drop(LowerChar(c)) == drop(c)
    ensures Strip(Lower(s), drop) == Lower(Strip(s, drop))
  {
    TrimStartLower(s, drop);
    TrimEndLower(TrimStart(s, drop), drop);
  }

  lemma {:induction false} TrimStartLower(s: string, drop: char -> bool)
    requires forall c :: drop(LowerChar(c)) == drop(c)
    ensures TrimStart(Lower(s), drop) == Lower(TrimStart(s, drop))
  {
    if s != [] {
      assert Lower(s)[1..] == Lower(s[1..]);
      TrimStartLower(s[1..], drop);
    }
  }

  lemma {:induction false} TrimEndLower(s: string, drop: char -> bool)
    requires forall c :: drop(LowerChar(c)) == drop(c)
    ensures TrimEnd(Lower(s), drop) == Lower(TrimEnd(s, drop))
  {
    if s != [] {
      assert Lower(s)[..|s| - 1] == Lower(s[..|s| - 1]);
      TrimEndLower(s[..|s| - 1], drop);
    }
  }

  /** A piece of `str.split()` output: non-empty and free of whitespace. */
  predicate IsWord(w: string)
  {
    w != [] && forall c :: c in w ==> !IsSpace(c)
  }

  /** `str.split()` with no separator, scanning `s` with the word in progress
      held in `cur`. */
  function SplitFrom(s: string, cur: string): (words: seq<string>)
    requires forall c :: c in cur ==> !IsSpace(c)
    ensures forall w :: w in words ==> IsWord(w)
    ensures forall w :: w in words ==> forall c :: c in w ==> c in s || c in cur
    decreases |s|
  {
    if s == [] then (if cur == [] then [] else [cur])
    else if IsSpace(s[0]) then (if cur == [] then [] else [cur]) + SplitFrom(s[1..], [])
    else SplitFrom(s[1..], cur + [s[0]])
  }

  /** `s.split()`: the maximal runs of non-whitespace characters. */
  function Split(s: string): (words: seq<string>)
    ensures forall w :: w in words ==> IsWord(w)
    ensures forall w :: w in words ==> forall c :: c in w ==> c in s
  {
    SplitFrom(s, [])
  }

  /** `sep.join(parts)`. */
  function Join(sep: string, parts: seq<string>): string
  {
    if |parts| == 0 then ""
    else if |parts| == 1 then parts[0]
    else parts[0] + sep + Join(sep, parts[1..])
  }

  /** Scanning a whitespace-free stretch only extends the word in progress. */
  lemma {:induction false} SplitFromWord(w: string, rest: string, cur: string)
    requires forall c :: c in w ==> !IsSpace(c)
    requires forall c :: c in cur ==> !IsSpace(c)
    ensures SplitFrom(w + rest, cur) == SplitFrom(rest, cur + w)
    decreases |w|
  {
    if w == [] {
      assert w + rest == rest;
      assert cur + w == cur;
    } else {
      assert (w + rest)[0] == w[0];
      assert (w + rest)[1..] == w[1..] + rest;
      SplitFromWord(w[1..], rest, cur + [w[0]]);
      assert cur + [w[0]] + w[1..] == cur + w;
    }
  }

  /** Joining words with single spaces and splitting again gives the words
      back. */
  lemma {:induction false} SplitJoin(words: seq<string>)
    ensures (forall w :: w in words ==> IsWord(w)) ==> Split(Join(" ", words)) == words
  {
    if forall w :: w in words ==> IsWord(w) {
      if |words| == 1 {
        assert words[0] in words;
        SplitFromWord(words[0], [], []);
        assert words[0] + [] == words[0];
        assert [] + words[0] == words[0];
      } else if |words| > 1 {
        assert words[0] in words;
        var rest := Join(" ", words[1..]);
        assert Join(" ", words) == words[0] + (" " + rest);
        SplitFromWord(words[0], " " + rest, []);
        assert [] + words[0] == words[0];
        assert (" " + rest)[1..] == rest;
        SplitJoin(words[1..]);
        assert words == [words[0]] + words[1..];
      }
    }
  }

  /** A whitespace character ends the word in progress and starts afresh. */
  lemma {:induction false} SplitFromSpace(a: string, c: char, b: string, cur: string)
    requires IsSpace(c)
    requires forall x :: x in cur ==> !IsSpace(x)
    ensures SplitFrom(a + [c] + b, cur) == SplitFrom(a, cur) + SplitFrom(b, [])
    decreases |a|
  {
    var s := a + [c] + b;
    if a == [] {
      assert s == [c] + b;
      assert s[1..] == b;
    } else {
      assert s[0] == a[0];
      assert s[1..] == a[1..] + [c] + b;
      if IsSpace(a[0]) {
        SplitFromSpace(a[1..], c, b, []);
      } else {
        SplitFromSpace(a[1..], c, b, cur + [a[0]]);
      }
    }
  }

  /** `str.split()` splits at every whitespace character: the words of
      `a + [c] + b` are those of `a` followed by those of `b`. */
  lemma SplitSpace(a: string, c: char, b: string)
    requires IsSpace(c)
    ensures Split(a + [c] + b) == Split(a) + Split(b)
  {
    SplitFromSpace(a, c, b, []);
  }

  /** A single word splits into itself. */
  lemma SplitWord(w: string)
    requires IsWord(w)
    ensures Split(w) == [w]
  {
    SplitFromWord(w, [], []);
    assert w + [] == w;
    assert [] + w == w;
  }

  /** The number of words that start in `s`, when the character before `s`
      was inside a word iff `inWord`. */
  function WordStarts(s: string, inWord: bool): nat
    decreases |s|
  {
    if s == [] then 0
    else if IsSpace(s[0]) then WordStarts(s[1..], false)
    else (if inWord then 0 else 1) + WordStarts(s[1..], true)
  }

  lemma {:induction false} SplitFromCount(s: string, cur: string)
    requires forall c :: c in cur ==> !IsSpace(c)
    ensures |SplitFrom(s, cur)| == (if cur == [] then 0 else 1) + WordStarts(s, cur != [])
    decreases |s|
  {
    if s != [] {
      if IsSpace(s[0]) {
        SplitFromCount(s[1..], []);
      } else {
        SplitFromCount(s[1..], cur + [s[0]]);
      }
    }
  }

  /** `str.split()` returns as many words as start in the text. */
  lemma SplitCount(s: string)
    ensures |Split(s)| == WordStarts(s, false)
  {
    SplitFromCount(s, []);
  }

  lemma {:induction false} WordStartsMonotone(s: string)
    ensures WordStarts(s, true) <= WordStarts(s, false) <= WordStarts(s, true) + 1
  {
  }

  /** Deleting characters that are not whitespace never adds a word. */
  lemma {:induction false} WordStartsFilter(s: string, keep: char -> bool, inWord: bool)
    requires forall c :: IsSpace(c) ==> keep(c)
    ensures WordStarts(Filter(s, keep), inWord) <= WordStarts(s, inWord)
    decreases |s|
  {
    if s != [] {
      var rest := Filter(s[1..], keep);
      if keep(s[0]) {
        assert Filter(s, keep) == [s[0]] + rest;
        assert ([s[0]] + rest)[1..] == rest;
        WordStartsFilter(s[1..], keep, !IsSpace(s[0]));
      } else {
        assert Filter(s, keep) == rest;
        WordStartsFilter(s[1..], keep, inWord);
        WordStartsMonotone(s[1..]);
        WordStartsMonotone(rest);
      }
    }
  }

  /** Lower-casing keeps every character's whitespace class, hence the words. */
  lemma {:induction false} WordStartsLower(s: string, inWord: bool)
    ensures WordStarts(Lower(s), inWord) == WordStarts(s, inWord)
    decreases |s|
  {
    if s != [] {
      assert Lower(s)[1..] == Lower(s[1..]);
      WordStartsLower(s[1..], !IsSpace(s[0]));
      WordStartsLower(s[1..], false);
      WordStartsLower(s[1..], true);
    }
  }

  /** Text with no non-whitespace character has no words. */
  lemma {:induction false} SplitBlank(s: string)
    requires forall c :: c in s ==> IsSpace(c)
    ensures Split(s) == []
    decreases |s|
  {
    if s != [] {
      assert s[0] in s;
      SplitBlank(s[1..]);
    }
  }

  /** `s.split(sep)` for a one-character separator: every piece, empty ones
      included, so that joining with `sep` restores `s`. */
  function SplitOn(s: string, sep: char): (pieces: seq<string>)
    ensures |pieces| >= 1
    ensures forall p :: p in pieces ==> sep !in p
    ensures Join([sep], pieces) == s
    decreases |s|
  {
    if s == [] then [""]
    else
      var rest := SplitOn(s[1..], sep);
      if s[0] == sep then
        assert Join([sep], [""] + rest) == [sep] + Join([sep], rest) by {
          assert ([""] + rest)[1..] == rest;
        }
        [""] + rest
      else
        var pieces := [[s[0]] + rest[0]] + rest[1..];
        assert Join([sep], pieces) == [s[0]] + Join([sep], rest) by {
          assert pieces[1..] == rest[1..];
        }
        pieces
  }

  /** A separator-free prefix joins the first piece of what follows it. */
  lemma {:induction false} SplitOnPrefix(p: string, s: string, sep: char)
    requires sep !in p
    ensures SplitOn(p + s, sep) == [p + SplitOn(s, sep)[0]] + SplitOn(s, sep)[1..]
  {
    if p != [] {
      assert (p + s)[0] == p[0];
      assert (p + s)[1..] == p[1..] + s;
      SplitOnPrefix(p[1..], s, sep);
      assert [p[0]] + (p[1..] + SplitOn(s, sep)[0]) == p + SplitOn(s, sep)[0];
    } else {
      var x := SplitOn(s, sep);
      assert p + s == s && p + x[0] == x[0];
      assert [x[0]] + x[1..] == x;
    }
  }

  /** Splitting the join of separator-free pieces gives the pieces back. */
  lemma {:induction false} SplitOnJoin(pieces: seq<string>, sep: char)
    requires |pieces| >= 1
    requires forall p :: p in pieces ==> sep !in p
    ensures SplitOn(Join([sep], pieces), sep) == pieces
  {
    assert sep !in pieces[0];
    if |pieces| == 1 {
      SplitOnPrefix(pieces[0], "", sep);
      assert pieces[0] + "" == pieces[0];
    } else {
      var rest := Join([sep], pieces[1..]);
      assert Join([sep], pieces) == pieces[0] + ([sep] + rest);
      SplitOnJoin(pieces[1..], sep);
      assert SplitOn([sep] + rest, sep) == [""] + pieces[1..] by {
        assert ([sep] + rest)[1..] == rest;
      }
      SplitOnPrefix(pieces[0], [sep] + rest, sep);
      assert pieces[0] + "" == pieces[0];
      assert [pieces[0]] + pieces[1..] == pieces;
    }
  }

  /** Every part with a single space put in front. */
  function Spaced(parts: seq<string>): (r: seq<string>)
    ensures |r| == |parts|
    ensures forall i :: 0 <= i < |parts| ==> r[i] == " " + parts[i]
  {
    seq(|parts|, i requires 0 <= i < |parts| => " " + parts[i])
  }

  /** Joining with ", " is joining with "," the parts after the first put
      behind a space. */
  lemma {:induction false} JoinSpaced(parts: seq<string>)
    requires |parts| >= 1
    ensures Join([','], Spaced(parts)) == " " + Join(", ", parts)
  {
    if |parts| > 1 {
      JoinSpaced(parts[1..]);
      assert Spaced(parts)[1..] == Spaced(parts[1..]);
    }
  }

  /** Stripping whitespace from a word behind a space gives the word. */
  lemma StripSpaced(w: string)
    requires IsWord(w)
    ensures Strip(" " + w, IsSpace) == w
  {
    var s := " " + w;
    assert s[1..] == w;
    assert w[0] in w && w[|w| - 1] in w;
    assert TrimStart(w, IsSpace) == w;
    assert TrimStart(s, IsSpace) == w;
    assert TrimEnd(w, IsSpace) == w;
  }

  /** A comma followed by a space is the separator ", ". */
  lemma CommaThenSpace(a: string, b: string)
    ensures a + [','] + (" " + b) == a + ", " + b
  {
    assert [','] + " " == ", ";
    assert a + [','] + (" " + b) == a + ([','] + " ") + b;
  }

  /** `", ".join(words)` is the first word and the other words behind a
      space, joined by ",". */
  lemma JoinCommaSpace(words: seq<string>)
    requires |words| >= 1
    ensures Join(", ", words) == Join([','], [words[0]] + Spaced(words[1..]))
  {
    var parts := [words[0]] + Spaced(words[1..]);
    if |words| > 1 {
      var rest := Join(", ", words[1..]);
      JoinSpaced(words[1..]);
      assert parts[1..] == Spaced(words[1..]);
      assert Join([','], parts) == words[0] + [','] + (" " + rest);
      CommaThenSpace(words[0], rest);
    }
  }

  /** The comma-separated fields of `", ".join(words)`: the first word, then
      every other word behind a space. */
  lemma CommaSpaceFields(words: seq<string>)
    requires |words| >= 1
    requires forall w :: w in words ==> ',' !in w
    ensures SplitOn(Join(", ", words), ',') == [words[0]] + Spaced(words[1..])
  {
    JoinCommaSpace(words);
    SpacedCommaFree(words);
    SplitOnJoin([words[0]] + Spaced(words[1..]), ',');
  }

  /** Putting a space in front of comma-free words adds no comma. */
  lemma SpacedCommaFree(words: seq<string>)
    requires |words| >= 1
    requires forall w :: w in words ==> ',' !in w
    ensures forall p :: p in [words[0]] + Spaced(words[1..]) ==> ',' !in p
  {
    var parts := [words[0]] + Spaced(words[1..]);
    forall i | 0 <= i < |parts| ensures ',' !in parts[i] {
      assert words[i] in words;
      if i > 0 {
        assert parts[i] == " " + words[i];
      }
    }
  }

  /** `", ".join(words)` read back by splitting at the commas and stripping
      each piece gives the words, when no word holds a comma. */
  lemma CommaSpaceRoundTrip(words: seq<string>)
    requires |words| >= 1
    requires forall w :: w in words ==> IsWord(w) && ',' !in w
    ensures var pieces := SplitOn(Join(", ", words), ',');
      |pieces| == |words| && forall i :: 0 <= i < |words| ==> Strip(pieces[i], IsSpace) == words[i]
  {
    CommaSpaceFields(words);
    var pieces := [words[0]] + Spaced(words[1..]);
    forall i | 0 <= i < |words| ensures Strip(pieces[i], IsSpace) == words[i] {
      assert words[i] in words;
      if i > 0 {
        assert pieces[i] == " " + words[i];
        StripSpaced(words[i]);
      }
    }
  }

  /** Python's `<` on `str`: code point by code point, a proper prefix first. */
  predicate Less(a: string, b: string)
    decreases |a|
  {
    if a == [] then b != []
    else if b == [] then false
    else if a[0] != b[0] then a[0] < b[0]
    else Less(a[1..], b[1..])
  }

  lemma {:induction false} LessIrreflexive(a: string)
    ensures !Less(a, a)
    decreases |a|
  {
    if a != [] {
      LessIrreflexive(a[1..]);
    }
  }

  lemma {:induction false} LessTransitive(a: string, b: string, c: string)
    requires Less(a, b) && Less(b, c)
    ensures Less(a, c)
    decreases |a|
  {
    if a != [] && a[0] == b[0] && b[0] == c[0] {
      LessTransitive(a[1..], b[1..], c[1..]);
    }
  }

  lemma {:induction false} LessTotal(a: string, b: string)
    requires a != b
    ensures Less(a, b) || Less(b, a)
    decreases |a|
  {
    if a != [] && b != [] && a[0] == b[0] {
      assert a == [a[0]] + a[1..] && b == [b[0]] + b[1..];
      LessTotal(a[1..], b[1..]);
    }
  }

  /** Sorted ascending with no repeats. */
  predicate StrictlyIncreasing(s: seq<string>)
  {
    forall i, j :: 0 <= i < j < |s| ==> Less(s[i], s[j])
  }

  /** A strictly increasing list holds no string twice. */
  lemma IncreasingDistinct(s: seq<string>, i: int, j: int)
    requires StrictlyIncreasing(s)
    requires 0 <= i < |s| && 0 <= j < |s| && i != j
    ensures s[i] != s[j]
  {
    if i < j {
      LessIrreflexive(s[i]);
    } else {
      LessIrreflexive(s[j]);
    }
  }

  lemma PrependIncreasing(h: string, t: seq<string>)
    requires StrictlyIncreasing(t)
    requires forall y :: y in t ==> Less(h, y)
    ensures StrictlyIncreasing([h] + t)
  {
    var s := [h] + t;
    forall i, j | 0 <= i < j < |s| ensures Less(s[i], s[j]) {
      if i == 0 {
        assert s[j] == t[j - 1] && t[j - 1] in t;
      } else {
        assert s[i] == t[i - 1] && s[j] == t[j - 1];
      }
    }
  }

  /** Adds `x` to a strictly increasing list, at its place, unless present. */
  function Insert(x: string, s: seq<string>): (r: seq<string>)
    requires StrictlyIncreasing(s)
    ensures StrictlyIncreasing(r)
    ensures forall y :: y in r <==> y in s || y == x
  {
    if s == [] then [x]
    else if x == s[0] then s
    else if Less(x, s[0]) then
      assert forall y :: y in s ==> Less(x, y) by {
        forall y | y in s ensures Less(x, y) {
          var j :| 0 <= j < |s| && s[j] == y;
          if j > 0 {
            LessTransitive(x, s[0], y);
          }
        }
      }
      PrependIncreasing(x, s);
      [x] + s
    else
      var t := Insert(x, s[1..]);
      assert forall y :: y in t ==> Less(s[0], y) by {
        LessTotal(x, s[0]);
        forall y | y in t ensures Less(s[0], y) {
          if y != x {
            var j :| 0 <= j < |s[1..]| && s[1..][j] == y;
            assert s[j + 1] == y;
          }
        }
      }
      PrependIncreasing(s[0], t);
      [s[0]] + t
  }

  /** `sorted(set(xs))`: the distinct strings of `xs` in ascending order. */
  function SortedUnique(xs: seq<string>): (r: seq<string>)
    ensures StrictlyIncreasing(r)
    ensures forall y :: y in r <==> y in xs
  {
    if xs == [] then [] else Insert(xs[0], SortedUnique(xs[1..]))
  }
}
