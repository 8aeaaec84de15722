/** The JavaScript string built-ins the planner relies on: `split('\n')`,
    `replace(/"/g, '')`, `trim()`, `includes` and `toUpperCase()`. */
module JsStrings {
  import opened Seqs

  /** The characters `String.prototype.trim` removes (white space and line terminators). */
  predicate IsSpace(c: char) {
    || '\t' <= c <= '\r' || c == ' ' || c == '\U{00A0}' || c == '\U{1680}'
    || '\U{2000}' <= c <= '\U{200A}'
    || c == '\U{2028}' || c == '\U{2029}' || c == '\U{202F}' || c == '\U{205F}'
    || c == '\U{3000}' || c == '\U{FEFF}'
  }

  /** Drops leading white space: the result is a suffix of `s`, everything
      dropped is white space and the result does not start with white space. */
  function TrimStart(s: string): (r: string)
    ensures |r| <= |s| && r == s[|s| - |r|..]
    ensures forall i :: 0 <= i < |s| - |r| ==> IsSpace(s[i])
    ensures r == [] || !IsSpace(r[0])
  {
    if s != [] && IsSpace(s[0]) then TrimStart(s[1..]) else s
  }

  /** Drops trailing white space: the result is a prefix of `s`, everything
      dropped is white space and the result does not end with white space. */
  function TrimEnd(s: string): (r: string)
    ensures |r| <= |s| && r == s[..|r|]
    ensures forall i :: |r| <= i < |s| ==> IsSpace(s[i])
    ensures r == [] || !IsSpace(r[|r| - 1])
  {
    if s != [] && IsSpace(s[|s| - 1]) then TrimEnd(s[..|s| - 1]) else s
  }

  /** `r` is `s` with white space, and only white space, cut off before offset `a` and after `r`. */
  ghost predicate PaddedBy(s: string, r: string, a: int) {
    && 0 <= a <= |s| - |r|
    && r == s[a..a + |r|]
    && (forall i :: 0 <= i < a ==> IsSpace(s[i]))
    && (forall i :: a + |r| <= i < |s| ==> IsSpace(s[i]))
  }

  /** `s.trim()`: neither end of the result is white space, and the result
      is a contiguous piece of `s` with only white space cut off around it. */
  function Trim(s: string): (r: string)
    ensures r == [] || (!IsSpace(r[0]) && !IsSpace(r[|r| - 1]))
    ensures exists a :: PaddedBy(s, r, a)
  {
    var t := TrimStart(s);
    var r := TrimEnd(t);
    PaddedByTrims(s, |s| - |t|, t, r);
    r
  }

  /** Cutting white space off the front and then off the back pads `s` by the cut-off front. */
  lemma PaddedByTrims(s: string, a: int, t: string, r: string)
    requires 0 <= a <= |s| && t == s[a..] && (forall i :: 0 <= i < a ==> IsSpace(s[i]))
    requires |r| <= |t| && r == t[..|r|] && (forall i :: |r| <= i < |t| ==> IsSpace(t[i]))
    requires (t == [] || !IsSpace(t[0])) && (r == [] || !IsSpace(r[|r| - 1]))
    ensures PaddedBy(s, r, a)
    ensures r == [] || (!IsSpace(r[0]) && !IsSpace(r[|r| - 1]))
  {
    assert r != [] ==> r[0] == t[0];
    forall k | 0 <= k < |r|
      ensures s[a + k] == r[k]
    {
      assert r[k] == t[k];
    }
    forall i | a + |r| <= i < |s|
      ensures IsSpace(s[i])
    {
      assert s[i] == t[i - a];
    }
  }

  /** Trimming yields the empty string exactly for a string of white space only. */
  lemma TrimEmpty(s: string)
    ensures Trim(s) == [] <==> forall i :: 0 <= i < |s| ==> IsSpace(s[i])
  {
    var a :| PaddedBy(s, Trim(s), a);
    if Trim(s) != [] {
      assert !IsSpace(s[a]);
    }
  }

  /** `s.replace(/"/g, '')`: every double quote removed, every other character kept in order. */
  function StripQuotes(s: string): (r: string)
    ensures '"' !in r
    ensures forall c :: c != '"' ==> multiset(r)[c] == multiset(s)[c]
    ensures '"' !in s ==> r == s
    decreases |s|
  {
    if s == [] then []
    else
      var init := s[..|s| - 1];
      assert s == init + [s[|s| - 1]];
      StripQuotes(init) + (if s[|s| - 1] == '"' then [] else [s[|s| - 1]])
  }

  /** Removing the quotes from a text with one more character at the end. */
  lemma StripQuotesSnoc(s: string, c: char)
    ensures StripQuotes(s + [c]) == StripQuotes(s) + (if c == '"' then [] else [c])
  {
    var t := s + [c];
    assert t[..|t| - 1] == s && t[|t| - 1] == c;
  }

  /** Removing the quotes works piece by piece: the kept characters stay in their order. */
  lemma {:induction false} StripQuotesAppend(a: string, b: string)
    ensures StripQuotes(a + b) == StripQuotes(a) + StripQuotes(b)
    decreases |b|
  {
    if b == [] {
      assert a + b == a;
    } else {
      var binit, c := b[..|b| - 1], b[|b| - 1];
      StripQuotesAppend(a, binit);
      LastSplit(b);
      AppendAssoc(a, binit, [c]);
      StripQuotesSnoc(a + binit, c);
      StripQuotesSnoc(binit, c);
      AppendAssoc(StripQuotes(a), StripQuotes(binit), if c == '"' then [] else [c]);
    }
  }

  /** A single character: a quote is dropped, anything else is kept. */
  lemma StripQuotesChar(c: char)
    ensures StripQuotes([c]) == if c == '"' then [] else [c]
  {
    assert [c][..0] == [];
  }

  /** A field after cleaning: no double quote, and no white space at either end. */
  predicate IsClean(s: string) {
    '"' !in s && (s == [] || (!IsSpace(s[0]) && !IsSpace(s[|s| - 1])))
  }

  /** The per-field cleaning `val.replace(/"/g, '').trim()`. */
  function CleanField(s: string): (r: string)
    ensures IsClean(r)
    ensures IsClean(s) ==> r == s
  {
    var q := StripQuotes(s);
    var r := Trim(q);
    assert forall c :: c in r ==> c in q;
    r
  }

  /** `String.prototype.toUpperCase`, for the ASCII letters. */
  function UpperChar(c: char): char {
    if 'a' <= c <= 'z' then (c as int - 32) as char else c
  }

  function Upper(s: string): (r: string)
    ensures |r| == |s|
    ensures forall i :: 0 <= i < |s| ==> r[i] == UpperChar(s[i])
  {
    seq(|s|, i requires 0 <= i < |s| => UpperChar(s[i]))
  }

  /** `s.includes(q)`, as a search from the front of `s`. */
  function Includes(s: string, q: string): bool
    decreases |s|
  {
    q <= s || (s != [] && Includes(s[1..], q))
  }

  /** `q` occurs in `s` at offset `i`. */
  ghost predicate OccursAt(s: string, q: string, i: int) {
    0 <= i <= |s| - |q| && s[i..i + |q|] == q
  }

  /** `Includes` agrees with the textbook definition: `q` occurs at some offset of `s`. */
  lemma {:induction false} IncludesIffOccurs(s: string, q: string)
    ensures Includes(s, q) <==> exists i :: OccursAt(s, q, i)
    decreases |s|
  {
    if Includes(s, q) {
      if q <= s {
        assert OccursAt(s, q, 0);
      } else {
        IncludesIffOccurs(s[1..], q);
        var i :| OccursAt(s[1..], q, i);
        assert s[i + 1..i + 1 + |q|] == s[1..][i..i + |q|];
        assert OccursAt(s, q, i + 1);
      }
    } else if exists i :: OccursAt(s, q, i) {
      var i :| OccursAt(s, q, i);
      if i == 0 {
        assert false;
      } else {
        assert s[1..][i - 1..i - 1 + |q|] == s[i..i + |q|];
        assert OccursAt(s[1..], q, i - 1);
        IncludesIffOccurs(s[1..], q);
        assert false;
      }
    }
  }

  /** `s.split('\n')`: the pieces between the line feeds, never fewer than one. */
  function SplitLines(s: string): (r: seq<string>)
    ensures |r| >= 1
    ensures forall i :: 0 <= i < |r| ==> '\n' !in r[i]
    ensures JoinLines(r) == s
    decreases |s|
  {
    if s == [] then [[]]
    else
      var rest := SplitLines(s[1..]);
      if s[0] == '\n' then [[]] + rest
      else [[s[0]] + rest[0]] + rest[1..]
  }

  /** `lines.join('\n')`. */
  function JoinLines(lines: seq<string>): string
    requires |lines| >= 1
  {
    if |lines| == 1 then lines[0] else lines[0] + "\n" + JoinLines(lines[1..])
  }

  /** Splitting a text with one more character in front. */
  lemma SplitCons(c: char, t: string)
    ensures SplitLines([c] + t) ==
      if c == '\n' then [[]] + SplitLines(t) else [[c] + SplitLines(t)[0]] + SplitLines(t)[1..]
  {
    var s := [c] + t;
    assert s[0] == c && s[1..] == t;
  }

  /** Joining lines whose first line is not empty starts with that line's first character. */
  lemma JoinFirstChar(lines: seq<string>)
    requires |lines| >= 1 && lines[0] != []
    ensures JoinLines(lines) == [lines[0][0]] + JoinLines([lines[0][1..]] + lines[1..])
  {
    var l := lines[0];
    var shorter := [l[1..]] + lines[1..];
    assert [l[0]] + l[1..] == l;
    if |lines| > 1 {
      var rest := JoinLines(lines[1..]);
      assert shorter[1..] == lines[1..];
      assert JoinLines(shorter) == l[1..] + "\n" + rest;
      assert [l[0]] + (l[1..] + "\n" + rest) == l + "\n" + rest;
    }
  }

  /** Splitting undoes joining when no piece holds a line feed. */
  lemma {:induction false} SplitJoin(lines: seq<string>)
    requires |lines| >= 1
    requires forall i :: 0 <= i < |lines| ==> '\n' !in lines[i]
    ensures SplitLines(JoinLines(lines)) == lines
    decreases |lines|, |lines[0]|
  {
    var l := lines[0];
    if l == [] {
      if |lines| > 1 {
        SplitJoin(lines[1..]);
        SplitCons('\n', JoinLines(lines[1..]));
        assert JoinLines(lines) == "\n" + JoinLines(lines[1..]);
        assert lines == [[]] + lines[1..];
      }
    } else {
      var shorter := [l[1..]] + lines[1..];
      SplitJoin(shorter);
      JoinFirstChar(lines);
      SplitCons(l[0], JoinLines(shorter));
      assert [l[0]] + l[1..] == l;
      assert lines == [[l[0]] + shorter[0]] + shorter[1..];
    }
  }

  /** The text after the first line feed is split on its own: the first line
      never reaches the pieces that follow it. */
  lemma SplitAfterFirstLine(head: string, rest: string)
    requires '\n' !in head
    ensures SplitLines(head + "\n" + rest) == [head] + SplitLines(rest)
  {
    var lines := [head] + SplitLines(rest);
    assert lines[1..] == SplitLines(rest);
    assert JoinLines(lines) == head + "\n" + rest;
    SplitJoin(lines);
  }
}
