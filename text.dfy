/** The Python string operations the core uses: whitespace splitting
    (str.split()), stripping (str.strip()), joining with a separator
    (str.join) and the decimal form of a page number (str(n)). Splitting on
    one character (SplitOn) and reading digits back (ParseNat) are not
    called by the program: they are the inverses that the round-trip lemmas
    about the stored comma-joined fields are stated with. */
module Text {
  import opened Seqs

  /** The characters that Python's str.split() and str.strip(), called
      without arguments, treat as whitespace. */
  predicate IsSpace(c: char) {
    || ('\t' <= c <= '\r')
    || ('\U{1C}' <= c <= ' ')
    || c == '\U{85}' || c == '\U{A0}' || c == '\U{1680}'
    || ('\U{2000}' <= c <= '\U{200A}')
    || c == '\U{2028}' || c == '\U{2029}' || c == '\U{202F}'
    || c == '\U{205F}' || c == '\U{3000}'
  }

  /** `not s.strip()`: nothing but whitespace. */
  predicate IsBlank(s: string) {
    forall i :: 0 <= i < |s| ==> IsSpace(s[i])
  }

  /** A non-empty run of non-whitespace characters. */
  predicate IsWord(w: string) {
    w != [] && forall i :: 0 <= i < |w| ==> !IsSpace(w[i])
  }

  /** s.lstrip(): s without its leading whitespace. */
  function TrimLeft(s: string): (r: string)
    ensures |r| <= |s|
  {
    if s != [] && IsSpace(s[0]) then TrimLeft(s[1..]) else s
  }

  /** s.rstrip(): s without its trailing whitespace. */
  function TrimRight(s: string): (r: string)
    ensures |r| <= |s|
  {
    if s != [] && IsSpace(s[|s| - 1]) then TrimRight(s[..|s| - 1]) else s
  }

  /** s.strip(). */
  function Trim(s: string): string {
    TrimRight(TrimLeft(s))
  }

  /** lstrip removes exactly the leading whitespace. */
  lemma {:induction false} TrimLeftRemovesLeadingSpace(s: string)
    ensures var r := TrimLeft(s);
            && r == s[|s| - |r|..]
            && (r == [] || !IsSpace(r[0]))
            && (forall i :: 0 <= i < |s| - |r| ==> IsSpace(s[i]))
  {
    if s != [] && IsSpace(s[0]) {
      TrimLeftRemovesLeadingSpace(s[1..]);
    }
  }

  /** rstrip removes exactly the trailing whitespace. */
  lemma {:induction false} TrimRightRemovesTrailingSpace(s: string)
    ensures var r := TrimRight(s);
            && r == s[..|r|]
            && (r == [] || !IsSpace(r[|r| - 1]))
            && (forall i :: |r| <= i < |s| ==> IsSpace(s[i]))
  {
    if s != [] && IsSpace(s[|s| - 1]) {
      TrimRightRemovesTrailingSpace(s[..|s| - 1]);
    }
  }

  /** Stripping leaves nothing exactly when the string is blank. */
  lemma TrimEmptyIffBlank(s: string)
    ensures Trim(s) == [] <==> IsBlank(s)
  {
    TrimLeftRemovesLeadingSpace(s);
    TrimRightRemovesTrailingSpace(TrimLeft(s));
  }

  /** The length of the run of non-whitespace characters that starts s. */
  function WordLength(s: string): (k: nat)
    ensures k <= |s|
  {
    if s == [] || IsSpace(s[0]) then 0 else 1 + WordLength(s[1..])
  }

  /** The leading run ends at the first whitespace character or at the end. */
  lemma {:induction false} WordLengthStopsAtSpace(s: string)
    ensures var k := WordLength(s);
            && (forall i :: 0 <= i < k ==> !IsSpace(s[i]))
            && (k == |s| || IsSpace(s[k]))
  {
    if s != [] && !IsSpace(s[0]) {
      WordLengthStopsAtSpace(s[1..]);
    }
  }

  /** s.split(): the maximal runs of non-whitespace characters of s, in order. */
  function Split(s: string): seq<string>
    decreases |s|
  {
    if s == [] then []
    else if IsSpace(s[0]) then Split(s[1..])
    else
      var k := WordLength(s);
      [s[..k]] + Split(s[k..])
  }

  /** Every piece str.split() returns is a word. */
  lemma {:induction false} SplitGivesWords(s: string)
    ensures forall i :: 0 <= i < |Split(s)| ==> IsWord(Split(s)[i])
    decreases |s|
  {
    if s != [] {
      if IsSpace(s[0]) {
        SplitGivesWords(s[1..]);
      } else {
        var k := WordLength(s);
        WordLengthStopsAtSpace(s);
        SplitGivesWords(s[k..]);
      }
    }
  }

  /** str.split() finds no word exactly in a blank string. */
  lemma {:induction false} SplitEmptyIffBlank(s: string)
    ensures Split(s) == [] <==> IsBlank(s)
    decreases |s|
  {
    if s != [] && IsSpace(s[0]) {
      SplitEmptyIffBlank(s[1..]);
      assert IsBlank(s) <==> IsBlank(s[1..]) by {
        assert forall i :: 0 < i < |s| ==> s[i] == s[1..][i - 1];
      }
    }
  }

  /** sep.join(parts). */
  function Join(parts: seq<string>, sep: string): string {
    if |parts| == 0 then ""
    else if |parts| == 1 then parts[0]
    else parts[0] + sep + Join(parts[1..], sep)
  }

  /** A joined string begins with its first part. */
  lemma {:induction false} JoinStartsWithFirst(parts: seq<string>, sep: string)
    requires |parts| >= 1
    ensures parts[0] <= Join(parts, sep)
  {
    if |parts| > 1 {
      assert Join(parts, sep) == parts[0] + (sep + Join(parts[1..], sep));
    }
  }

  /** Joining one or more words with spaces never yields a blank string. */
  lemma JoinWordsNotBlank(words: seq<string>)
    requires |words| >= 1
    requires forall i :: 0 <= i < |words| ==> IsWord(words[i])
    ensures !IsBlank(Join(words, " "))
  {
    JoinStartsWithFirst(words, " ");
    assert Join(words, " ")[0] == words[0][0];
  }

  /** The leading run of "w + rest" is w when rest starts with whitespace. */
  lemma {:induction false} WordLengthOfWord(w: string, rest: string)
    requires IsWord(w)
    requires rest == [] || IsSpace(rest[0])
    ensures WordLength(w + rest) == |w|
    decreases |w|
  {
    var s := w + rest;
    assert s[0] == w[0];
    assert s[1..] == w[1..] + rest;
    if |w| > 1 {
      assert IsWord(w[1..]) by {
        assert forall i :: 0 <= i < |w| - 1 ==> w[1..][i] == w[i + 1];
      }
      WordLengthOfWord(w[1..], rest);
    }
  }

  /** Splitting "w + rest" yields the word w, then the words of rest. */
  lemma SplitWordThen(w: string, rest: string)
    requires IsWord(w)
    requires rest == [] || IsSpace(rest[0])
    ensures Split(w + rest) == [w] + Split(rest)
  {
    var s := w + rest;
    assert s[0] == w[0];
    WordLengthOfWord(w, rest);
    assert s[..|w|] == w;
    assert s[|w|..] == rest;
  }

  /** A separating space is skipped by str.split(). */
  lemma SplitAfterSpace(j: string)
    ensures Split(" " + j) == Split(j)
  {
    assert (" " + j)[1..] == j;
  }

  /** A word on its own splits into itself. */
  lemma SplitWord(w: string)
    requires IsWord(w)
    ensures Split(w) == [w]
  {
    SplitWordThen(w, "");
    assert w + "" == w;
  }

  /** The leading run of a + t is that of a, when t starts with whitespace. */
  lemma {:induction false} WordLengthAppend(a: string, t: string)
    requires t != [] && IsSpace(t[0])
    ensures WordLength(a + t) == WordLength(a)
    decreases |a|
  {
    if a != [] {
      assert (a + t)[0] == a[0];
      assert (a + t)[1..] == a[1..] + t;
      WordLengthAppend(a[1..], t);
    }
  }

  /** str.split() keeps every word: splitting at a whitespace character
      splits each side on its own and puts the pieces together in order. */
  lemma {:induction false} SplitAtSpace(a: string, c: char, b: string)
    requires IsSpace(c)
    ensures Split(a + [c] + b) == Split(a) + Split(b)
    decreases |a|
  {
    var s := a + [c] + b;
    if a == [] {
      assert s == [c] + b;
      assert s[1..] == b;
    } else if IsSpace(a[0]) {
      assert s[0] == a[0];
      assert s[1..] == a[1..] + [c] + b;
      SplitAtSpace(a[1..], c, b);
    } else {
      var k := WordLength(a);
      WordLengthAppend(a, [c] + b);
      assert s == a + ([c] + b);
      assert s[0] == a[0];
      assert s[..k] == a[..k];
      assert s[k..] == a[k..] + [c] + b;
      SplitAtSpace(a[k..], c, b);
      AppendAssoc([a[..k]], Split(a[k..]), Split(b));
    }
  }

  /** A word, a space and the rest split into the word and the rest's words. */
  lemma SplitWordSpace(w: string, j: string)
    requires IsWord(w)
    ensures Split(w + " " + j) == [w] + Split(j)
  {
    assert w + " " + j == w + (" " + j);
    SplitWordThen(w, " " + j);
    SplitAfterSpace(j);
  }

  /** Splitting what was joined with single spaces gives the words back:
      words themselves contain no whitespace. */
  lemma {:induction false} SplitJoin(words: seq<string>)
    requires forall i :: 0 <= i < |words| ==> IsWord(words[i])
    ensures Split(Join(words, " ")) == words
  {
    if |words| == 0 {
      assert Join(words, " ") == "";
    } else if |words| == 1 {
      SplitWordThen(words[0], "");
      assert words[0] + "" == words[0];
      assert Join(words, " ") == words[0];
    } else {
      var rest := words[1..];
      var j := Join(rest, " ");
      assert Join(words, " ") == words[0] + " " + j;
      SplitWordSpace(words[0], j);
      SplitJoin(rest);
      assert words == [words[0]] + rest;
    }
  }

  /** The first position of c in s. */
  function IndexOf(s: string, c: char): (i: nat)
    requires c in s
    ensures i < |s| && s[i] == c && c !in s[..i]
  {
    if s[0] == c then 0 else 1 + IndexOf(s[1..], c)
  }

  /** s.split(c) for a one-character separator c ("".split(",") is [""]). */
  function SplitOn(s: string, c: char): (parts: seq<string>)
    ensures |parts| >= 1
    decreases |s|
  {
    if c in s then
      var i := IndexOf(s, c);
      [s[..i]] + SplitOn(s[i + 1..], c)
    else
      [s]
  }

  /** The first c in "p + [c] + rest" is the one after p, when p has none. */
  lemma {:induction false} IndexOfAfter(p: string, c: char, rest: string)
    requires c !in p
    ensures c in p + [c] + rest && IndexOf(p + [c] + rest, c) == |p|
  {
    var s := p + [c] + rest;
    assert s[|p|] == c;
    if p != [] {
      assert s[1..] == p[1..] + [c] + rest;
      IndexOfAfter(p[1..], c, rest);
    }
  }

  /** Splitting on c at a prefix without c peels off that prefix. */
  lemma SplitOnAfter(p: string, c: char, rest: string)
    requires c !in p
    ensures SplitOn(p + [c] + rest, c) == [p] + SplitOn(rest, c)
  {
    var s := p + [c] + rest;
    IndexOfAfter(p, c, rest);
    assert s[..|p|] == p;
    assert s[|p| + 1..] == rest;
  }

  /** Splitting on c undoes joining with c, when no part contains c. */
  lemma {:induction false} SplitOnJoin(parts: seq<string>, c: char)
    requires |parts| >= 1
    requires forall i :: 0 <= i < |parts| ==> c !in parts[i]
    ensures SplitOn(Join(parts, [c]), c) == parts
  {
    if |parts| > 1 {
      var p, rest := parts[0], parts[1..];
      assert Join(parts, [c]) == p + [c] + Join(rest, [c]);
      SplitOnAfter(p, c, Join(rest, [c]));
      assert forall i :: 0 <= i < |rest| ==> c !in rest[i] by {
        forall i | 0 <= i < |rest| ensures c !in rest[i] {
          assert rest[i] == parts[i + 1];
        }
      }
      SplitOnJoin(rest, c);
      assert parts == [p] + rest;
    } else {
      assert c !in parts[0];
    }
  }

  predicate IsDigits(s: string) {
    forall i :: 0 <= i < |s| ==> '0' <= s[i] <= '9'
  }

  function Digit(d: nat): (c: char)
    requires d < 10
    ensures '0' <= c <= '9'
  {
    ('0' as int + d) as char
  }

  /** str(n): the decimal digits of n, most significant first. */
  function NatToString(n: nat): (s: string)
    ensures s != [] && IsDigits(s)
    ensures n == 0 ==> s == "0"
    ensures n > 0 ==> s[0] != '0'
  {
    if n < 10 then [Digit(n)] else NatToString(n / 10) + [Digit(n % 10)]
  }

  /** int(s) for a string of decimal digits. */
  function ParseNat(s: string): nat
    requires IsDigits(s)
  {
    if s == [] then 0 else 10 * ParseNat(s[..|s| - 1]) + (s[|s| - 1] as int - '0' as int)
  }

  /** The decimal form of a page number reads back as that number. */
  lemma {:induction false} ParseNatToString(n: nat)
    ensures ParseNat(NatToString(n)) == n
  {
    var s := NatToString(n);
    if n >= 10 {
      ParseNatToString(n / 10);
      assert s[..|s| - 1] == NatToString(n / 10);
    }
  }
}
