/**
 * The Python string operations that the modelled scripts rely on, on `string`
 * (a sequence of Unicode scalar values): whitespace as `str.isspace` sees it,
 * `strip`, `lstrip` of one character, `startswith`, `endswith`, the `in`
 * operator, `lower`, `replace` of one character, and `" ".join(s.split())`.
 */
module Text {

  /** `c.isspace()`; `\s` in a regular expression over `str` matches the same characters. */
  predicate IsSpace(c: char)
  {
    var n := c as int;
    (9 <= n <= 13) || (28 <= n <= 32) || n == 0x85 || n == 0xA0 || n == 0x1680
    || (0x2000 <= n <= 0x200A) || n == 0x2028 || n == 0x2029 || n == 0x202F
    || n == 0x205F || n == 0x3000
  }

  /** `not s.strip()`: the string holds nothing but whitespace. */
  predicate IsBlank(s: string)
  {
    forall i :: 0 <= i < |s| ==> IsSpace(s[i])
  }

  /** `s.lstrip()` */
  function LStrip(s: string): (r: string)
    ensures |r| <= |s| && r == s[|s| - |r|..]
    ensures IsBlank(s[..|s| - |r|])
    ensures r == [] || !IsSpace(r[0])
  {
    if s != [] && IsSpace(s[0]) then
      var t := s[1..];
      var r := LStrip(t);
      assert r == s[|s| - |r|..] by { assert t[|t| - |r|..] == s[|s| - |r|..]; }
      assert IsBlank(s[..|s| - |r|]) by {
        BlankCons(s[0], t[..|t| - |r|]);
        assert s[..|s| - |r|] == [s[0]] + t[..|t| - |r|];
      }
      r
    else
      assert s[..0] == [];
      s
  }

  /** A blank string stays blank when a whitespace character is put in front. */
  lemma BlankCons(c: char, t: string)
    requires IsSpace(c) && IsBlank(t)
    ensures IsBlank([c] + t)
  {
    assert forall k :: 0 < k <= |t| ==> ([c] + t)[k] == t[k - 1];
  }

  /** `r` starts at index `i` of `s`, and only whitespace follows it. */
  predicate CoreAt(r: string, s: string, i: int)
  {
    0 <= i && i + |r| <= |s| && r == s[i..i + |r|] && IsBlank(s[i + |r|..])
  }

  /**
   * `r` is what is left of `s` once its leading whitespace (all of it, as
   * `lstrip` removes it) and a blank tail are cut off.
   */
  predicate CoreOf(r: string, s: string)
  {
    CoreAt(r, s, |s| - |LStrip(s)|)
  }

  /**
   * What `s.strip()` promises: `r` is the core of `s`, empty exactly when `s`
   * is blank, and otherwise neither starts nor ends in whitespace.
   */
  predicate StripsTo(s: string, r: string)
  {
    && CoreOf(r, s)
    && (r == [] <==> IsBlank(s))
    && (r != [] ==> !IsSpace(r[0]) && !IsSpace(r[|r| - 1]))
  }

  /** `s.strip()` */
  function Strip(s: string): (r: string)
    decreases |s|
    ensures StripsTo(s, r)
  {
    if s == [] then s
    else if IsSpace(s[0]) then
      var r := Strip(s[1..]);
      StripsToDropFirst(s, r);
      r
    else if IsSpace(s[|s| - 1]) then
      var r := Strip(s[..|s| - 1]);
      StripsToDropLast(s, r);
      r
    else
      StripsToTrimmed(s);
      s
  }

  /** A leading whitespace character changes nothing of what `strip()` gives. */
  lemma StripsToDropFirst(s: string, r: string)
    requires s != [] && IsSpace(s[0]) && StripsTo(s[1..], r)
    ensures StripsTo(s, r)
  {
    CoreOfDropFirst(s, r);
    BlankTail(s);
  }

  /** A trailing whitespace character after a non-space start changes nothing of what `strip()` gives. */
  lemma StripsToDropLast(s: string, r: string)
    requires s != [] && !IsSpace(s[0]) && IsSpace(s[|s| - 1]) && StripsTo(s[..|s| - 1], r)
    ensures StripsTo(s, r)
  {
    CoreOfDropLast(s, r);
    BlankInit(s);
  }

  /** A string that neither starts nor ends in whitespace strips to itself. */
  lemma StripsToTrimmed(s: string)
    requires s != [] && !IsSpace(s[0]) && !IsSpace(s[|s| - 1])
    ensures StripsTo(s, s)
  {
    LStripOfNonSpace(s);
    assert s[0..|s|] == s && s[|s|..] == [];
  }

  /** Behind a leading whitespace character, a string is blank exactly when its tail is. */
  lemma BlankTail(s: string)
    requires s != [] && IsSpace(s[0])
    ensures IsBlank(s) <==> IsBlank(s[1..])
  {
    assert forall k :: 0 < k < |s| ==> s[k] == s[1..][k - 1];
  }

  /** Before a trailing whitespace character, a string is blank exactly when its front is. */
  lemma BlankInit(s: string)
    requires s != [] && IsSpace(s[|s| - 1])
    ensures IsBlank(s) <==> IsBlank(s[..|s| - 1])
  {
    assert forall k :: 0 <= k < |s| - 1 ==> s[k] == s[..|s| - 1][k];
  }

  /** The core of the tail of `s`, at `i`, is the core of `s` at `i + 1`. */
  lemma CoreAtTail(r: string, s: string, i: int)
    requires s != [] && CoreAt(r, s[1..], i)
    ensures CoreAt(r, s, i + 1)
  {
    assert s[1..][i..i + |r|] == s[i + 1..i + 1 + |r|];
    assert s[1..][i + |r|..] == s[i + 1 + |r|..];
  }

  /** Appending whitespace keeps the core where it is. */
  lemma CoreAtInit(r: string, s: string, i: int)
    requires s != [] && CoreAt(r, s[..|s| - 1], i) && IsSpace(s[|s| - 1])
    ensures CoreAt(r, s, i)
  {
    var t := s[..|s| - 1];
    assert t[i..i + |r|] == s[i..i + |r|];
    assert s[i + |r|..] == t[i + |r|..] + [s[|s| - 1]];
    BlankSnoc(t[i + |r|..], s[|s| - 1]);
  }

  /** A string that starts with a non-space is its own `lstrip()`. */
  lemma LStripOfNonSpace(s: string)
    requires s != [] && !IsSpace(s[0])
    ensures LStrip(s) == s
  {
  }

  /** A string that starts with whitespace has the `lstrip()` of its tail. */
  lemma LStripOfSpace(s: string)
    requires s != [] && IsSpace(s[0])
    ensures LStrip(s) == LStrip(s[1..])
  {
  }

  /** Dropping a leading space keeps the core. */
  lemma CoreOfDropFirst(s: string, r: string)
    requires s != [] && IsSpace(s[0]) && CoreOf(r, s[1..])
    ensures CoreOf(r, s)
  {
    LStripOfSpace(s);
    CoreAtTail(r, s, |s[1..]| - |LStrip(s[1..])|);
  }

  /** A blank string stays blank when a whitespace character is appended. */
  lemma BlankSnoc(t: string, c: char)
    requires IsBlank(t) && IsSpace(c)
    ensures IsBlank(t + [c])
  {
    assert forall k :: 0 <= k < |t| ==> (t + [c])[k] == t[k];
  }

  /** Dropping a trailing space of a string that starts with a non-space keeps the core. */
  lemma CoreOfDropLast(s: string, r: string)
    requires s != [] && !IsSpace(s[0]) && IsSpace(s[|s| - 1]) && CoreOf(r, s[..|s| - 1])
    ensures CoreOf(r, s)
  {
    var t := s[..|s| - 1];
    LStripOfNonSpace(s);
    assert t != [] && t[0] == s[0];
    LStripOfNonSpace(t);
    CoreAtInit(r, s, 0);
  }

  /** A string that neither starts nor ends in whitespace is its own `strip()`. */
  lemma StripTrimmed(s: string)
    requires s != [] && !IsSpace(s[0]) && !IsSpace(s[|s| - 1])
    ensures Strip(s) == s
  {
  }

  /** `s.startswith(p)` */
  predicate StartsWith(s: string, p: string)
  {
    |p| <= |s| && s[..|p|] == p
  }

  /** `s.endswith(p)` */
  predicate EndsWith(s: string, p: string)
  {
    |p| <= |s| && s[|s| - |p|..] == p
  }

  /** A string that ends with `a + b` ends with `b`. */
  lemma EndsWithJoin(s: string, a: string, b: string)
    requires EndsWith(s, a + b)
    ensures EndsWith(s, b)
  {
    assert s[|s| - |b|..] == s[|s| - |a + b|..][|a|..];
  }

  /** `p` occurs in `s` starting at index `i`. */
  predicate OccursAt(s: string, p: string, i: int)
  {
    0 <= i && i + |p| <= |s| && s[i..i + |p|] == p
  }

  /** `p in s` */
  predicate Contains(s: string, p: string)
  {
    exists i :: 0 <= i <= |s| - |p| && OccursAt(s, p, i)
  }

  /** A prefix of `s` is in `s`. */
  lemma StartsWithContains(s: string, p: string)
    requires StartsWith(s, p)
    ensures Contains(s, p)
  {
    assert OccursAt(s, p, 0);
  }

  /** A non-empty `p` whose first character `s` lacks is not in `s`. */
  lemma AbsentFirstChar(s: string, p: string)
    requires p != [] && p[0] !in s
    ensures !Contains(s, p)
  {
  }

  /**
   * Appending characters that cannot end an occurrence of `p` creates no
   * occurrence: if `a` lacks `p` and `tail` lacks the last character of
   * `p`, then `a + tail` lacks `p`.
   */
  lemma {:induction false} NoOccurrenceAcrossTail(a: string, tail: string, p: string)
    requires p != [] && !Contains(a, p) && p[|p| - 1] !in tail
    ensures !Contains(a + tail, p)
  {
    var s := a + tail;
    forall i | 0 <= i <= |s| - |p|
      ensures !OccursAt(s, p, i)
    {
      if i + |p| <= |a| {
        assert s[i..i + |p|] == a[i..i + |p|];
        assert !OccursAt(a, p, i);
      } else {
        var last := i + |p| - 1;
        assert s[last] == tail[last - |a|];
        assert s[i..i + |p|][|p| - 1] == s[last];
      }
    }
  }

  /** `c.lower()` for ASCII letters; every other character is left as it is. */
  function LowerChar(c: char): char
  {
    if 'A' <= c <= 'Z' then (c as int + 32) as char else c
  }

  /** `s.lower()`, character by character. */
  function Lower(s: string): string
  {
    seq(|s|, i requires 0 <= i < |s| => LowerChar(s[i]))
  }

  /** `s.replace(from, to)` for single characters. */
  function ReplaceChar(s: string, from: char, to: char): string
  {
    seq(|s|, i requires 0 <= i < |s| => if s[i] == from then to else s[i])
  }

  /** `s.lstrip(chars)` where every character of `chars` is `c` (so `lstrip("##")` strips all leading `#`). */
  function LStripChar(s: string, c: char): (r: string)
    ensures |r| <= |s| && r == s[|s| - |r|..]
    ensures r == [] || r[0] != c
    ensures forall i :: 0 <= i < |s| - |r| ==> s[i] == c
  {
    if s != [] && s[0] == c then
      var t := s[1..];
      var r := LStripChar(t, c);
      assert r == s[|s| - |r|..] by { assert t[|t| - |r|..] == s[|s| - |r|..]; }
      assert forall i :: 0 < i < |s| - |r| ==> s[i] == t[i - 1];
      r
    else
      s
  }

  // ---------------------------------------------------------------------
  // `" ".join(s.split())`
  // ---------------------------------------------------------------------

  /** A word as `str.split()` produces it: non-empty and free of whitespace. */
  predicate IsWord(w: string)
  {
    w != [] && forall i :: 0 <= i < |w| ==> !IsSpace(w[i])
  }

  /** The longest prefix of `s` without whitespace. */
  function LeadingWord(s: string): (w: string)
    ensures |w| <= |s| && w == s[..|w|]
    ensures forall i :: 0 <= i < |w| ==> !IsSpace(w[i])
    ensures |w| == |s| || IsSpace(s[|w|])
  {
    if s == [] || IsSpace(s[0]) then [] else [s[0]] + LeadingWord(s[1..])
  }

  /** `s.split()`: the maximal runs of non-whitespace characters, in order. */
  function Words(s: string): seq<string>
    decreases |s|
  {
    var t := LStrip(s);
    if t == [] then []
    else
      var w := LeadingWord(t);
      assert |w| > 0 by { assert !IsSpace(t[0]); }
      [w] + Words(t[|w|..])
  }

  /** Every piece that `split()` yields is a word. */
  lemma {:induction false} WordsAreWords(s: string)
    ensures forall k :: 0 <= k < |Words(s)| ==> IsWord(Words(s)[k])
    decreases |s|
  {
    var t := LStrip(s);
    if t != [] {
      var w := LeadingWord(t);
      var rest := Words(t[|w|..]);
      assert !IsSpace(t[0]);
      assert IsWord(w);
      assert Words(s) == [w] + rest;
      WordsAreWords(t[|w|..]);
      forall k | 0 < k < |Words(s)|
        ensures IsWord(Words(s)[k])
      {
        assert Words(s)[k] == rest[k - 1];
      }
    }
  }

  /** `" ".join(ws)` */
  function JoinWords(ws: seq<string>): string
  {
    if ws == [] then []
    else if |ws| == 1 then ws[0]
    else ws[0] + " " + JoinWords(ws[1..])
  }

  /** Whitespace in `s` occurs only as single spaces between two non-whitespace characters. */
  predicate SingleSpaced(s: string)
  {
    forall i :: 0 <= i < |s| && IsSpace(s[i]) ==>
      s[i] == ' ' && 0 < i < |s| - 1 && !IsSpace(s[i - 1]) && !IsSpace(s[i + 1])
  }

  /** The characters of `s` that are not whitespace, in order. */
  function NonSpace(s: string): string
  {
    if s == [] then []
    else (if IsSpace(s[0]) then [] else [s[0]]) + NonSpace(s[1..])
  }

  /** The concatenation of a sequence of strings. */
  function Concat(ss: seq<string>): string
  {
    if ss == [] then [] else ss[0] + Concat(ss[1..])
  }

  /** `" ".join(s.split())`: the profile text with its whitespace normalised. */
  function NormalizeWhitespace(s: string): (r: string)
    ensures SingleSpaced(r)
    ensures r == [] || (!IsSpace(r[0]) && !IsSpace(r[|r| - 1]))
    ensures NonSpace(r) == NonSpace(s)
  {
    WordsAreWords(s);
    JoinOfWords(Words(s));
    NonSpaceOfJoin(Words(s));
    NonSpaceOfWords(s);
    JoinWords(Words(s))
  }

  lemma {:induction false} NonSpaceAppend(a: string, b: string)
    ensures NonSpace(a + b) == NonSpace(a) + NonSpace(b)
    decreases |a|
  {
    if a == [] {
      assert a + b == b;
    } else {
      var x := if IsSpace(a[0]) then [] else [a[0]];
      assert (a + b)[0] == a[0];
      assert (a + b)[1..] == a[1..] + b;
      NonSpaceAppend(a[1..], b);
      calc {
        NonSpace(a + b);
        x + NonSpace(a[1..] + b);
        x + (NonSpace(a[1..]) + NonSpace(b));
        (x + NonSpace(a[1..])) + NonSpace(b);
        NonSpace(a) + NonSpace(b);
      }
    }
  }

  lemma {:induction false} NonSpaceOfBlank(s: string)
    requires IsBlank(s)
    ensures NonSpace(s) == []
    decreases |s|
  {
    if s != [] {
      NonSpaceOfBlank(s[1..]);
    }
  }

  lemma {:induction false} NonSpaceOfWord(w: string)
    requires forall i :: 0 <= i < |w| ==> !IsSpace(w[i])
    ensures NonSpace(w) == w
    decreases |w|
  {
    if w != [] {
      NonSpaceOfWord(w[1..]);
    }
  }

  /** Joining whitespace-free words keeps exactly their characters. */
  lemma {:induction false} NonSpaceOfJoin(ws: seq<string>)
    requires forall k :: 0 <= k < |ws| ==> IsWord(ws[k])
    ensures NonSpace(JoinWords(ws)) == Concat(ws)
  {
    if ws == [] {
    } else if |ws| == 1 {
      NonSpaceOfWord(ws[0]);
      assert Concat(ws) == ws[0] + Concat([]);
    } else {
      NonSpaceOfJoin(ws[1..]);
      NonSpaceAppend(ws[0] + " ", JoinWords(ws[1..]));
      NonSpaceAppend(ws[0], " ");
      NonSpaceOfWord(ws[0]);
    }
  }

  /** A string is its prefix followed by the matching suffix. */
  lemma SplitAt(s: string, k: nat)
    requires k <= |s|
    ensures s == s[..k] + s[k..]
  {
  }

  /** The concatenation of a word followed by more strings. */
  lemma ConcatCons(w: string, ws: seq<string>)
    ensures Concat([w] + ws) == w + Concat(ws)
  {
    assert ([w] + ws)[1..] == ws;
  }

  /** Splitting at whitespace keeps exactly the non-whitespace characters. */
  lemma {:induction false} NonSpaceOfWords(s: string)
    ensures Concat(Words(s)) == NonSpace(s)
    decreases |s|
  {
    var t := LStrip(s);
    var lead := s[..|s| - |t|];
    assert s == lead + t;
    NonSpaceAppend(lead, t);
    NonSpaceOfBlank(lead);
    assert NonSpace(s) == NonSpace(t);
    if t != [] {
      var w := LeadingWord(t);
      var rest := t[|w|..];
      assert Words(s) == [w] + Words(rest);
      ConcatCons(w, Words(rest));
      SplitAt(t, |w|);
      NonSpaceAppend(w, rest);
      NonSpaceOfWord(w);
      NonSpaceOfWords(rest);
    }
  }

  /** Joining words with single spaces yields a single-spaced, trimmed string. */
  lemma {:induction false} JoinOfWords(ws: seq<string>)
    requires forall k :: 0 <= k < |ws| ==> IsWord(ws[k])
    ensures SingleSpaced(JoinWords(ws))
    ensures ws != [] ==>
              (JoinWords(ws) != [] && !IsSpace(JoinWords(ws)[0])
               && !IsSpace(JoinWords(ws)[|JoinWords(ws)| - 1]))
    ensures ws == [] ==> JoinWords(ws) == []
  {
    if |ws| > 1 {
      JoinOfWords(ws[1..]);
      var w, rest := ws[0], JoinWords(ws[1..]);
      var j := w + " " + rest;
      forall i | 0 <= i < |j| && IsSpace(j[i])
        ensures j[i] == ' ' && 0 < i < |j| - 1 && !IsSpace(j[i - 1]) && !IsSpace(j[i + 1])
      {
        if i > |w| {
          assert j[i] == rest[i - |w| - 1];
          assert j[i - 1] == if i - 1 == |w| then ' ' else rest[i - |w| - 2];
          if i - |w| - 1 < |rest| - 1 {
            assert j[i + 1] == rest[i - |w|];
          }
        }
      }
    }
  }

  lemma {:induction false} LStripOfTrimmed(s: string)
    requires s == [] || !IsSpace(s[0])
    ensures LStrip(s) == s
  {
  }

  lemma {:induction false} LeadingWordOfJoin(w: string, rest: string)
    requires forall i :: 0 <= i < |w| ==> !IsSpace(w[i])
    requires rest == [] || IsSpace(rest[0])
    ensures LeadingWord(w + rest) == w
    decreases |w|
  {
    if w != [] {
      assert (w + rest)[1..] == w[1..] + rest;
      LeadingWordOfJoin(w[1..], rest);
    }
  }

  /** Leading whitespace does not change the split. */
  lemma WordsOfLeadingSpace(s: string)
    requires s != [] && IsSpace(s[0])
    ensures Words(s) == Words(s[1..])
  {
    assert LStrip(s) == LStrip(s[1..]);
  }

  /** A string that starts with a word splits into that word, then the split of what follows it. */
  lemma WordsOfTrimmed(s: string)
    requires s != [] && !IsSpace(s[0])
    ensures Words(s) == [LeadingWord(s)] + Words(s[|LeadingWord(s)|..])
  {
    LStripOfTrimmed(s);
  }

  /** Splitting a word, a space and a rest gives the word, then the rest's words. */
  lemma WordsOfCons(w: string, rest: string)
    requires IsWord(w)
    ensures Words(w + " " + rest) == [w] + Words(rest)
  {
    var j := w + (" " + rest);
    assert w + " " + rest == j;
    assert j[0] == w[0];
    WordsOfTrimmed(j);
    LeadingWordOfJoin(w, " " + rest);
    assert j[|w|..] == " " + rest;
    WordsOfLeadingSpace(" " + rest);
    assert (" " + rest)[1..] == rest;
  }

  /** A single word splits into itself. */
  lemma WordsOfWord(w: string)
    requires IsWord(w)
    ensures Words(w) == [w]
  {
    LStripOfTrimmed(w);
    LeadingWordOfJoin(w, []);
    assert w + [] == w;
    assert w[|w|..] == [];
    assert Words([]) == [];
  }

  /** Splitting what was joined from words gives the words back. */
  lemma {:induction false} WordsOfJoin(ws: seq<string>)
    requires forall k :: 0 <= k < |ws| ==> IsWord(ws[k])
    ensures Words(JoinWords(ws)) == ws
  {
    if ws == [] {
    } else if |ws| == 1 {
      WordsOfWord(ws[0]);
    } else {
      var rest := ws[1..];
      assert JoinWords(ws) == ws[0] + " " + JoinWords(rest);
      assert Words(JoinWords(ws)) == [ws[0]] + Words(JoinWords(rest)) by {
        WordsOfCons(ws[0], JoinWords(rest));
      }
      assert Words(JoinWords(rest)) == rest by {
        WordsOfJoin(rest);
      }
      assert [ws[0]] + rest == ws;
    }
  }

  /** Normalising whitespace twice changes nothing more than normalising once. */
  lemma NormalizeWhitespaceIdempotent(s: string)
    ensures NormalizeWhitespace(NormalizeWhitespace(s)) == NormalizeWhitespace(s)
  {
    WordsAreWords(s);
    WordsOfJoin(Words(s));
  }
}
