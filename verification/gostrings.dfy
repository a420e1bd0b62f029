/**
 * The parts of Go's `strings` and `unicode` packages the repository relies on,
 * over Dafny strings (sequences of Unicode scalar values, Go's runes).
 */
module GoStrings {
  import opened SeqFacts

  /** `unicode.IsSpace`: the Latin-1 spaces plus the Unicode White_Space runes. */
  predicate IsSpace(c: char) {
    var n := c as int;
    n == 0x09 || n == 0x0A || n == 0x0B || n == 0x0C || n == 0x0D || n == 0x20
    || n == 0x85 || n == 0xA0 || n == 0x1680 || (0x2000 <= n <= 0x200A)
    || n == 0x2028 || n == 0x2029 || n == 0x202F || n == 0x205F || n == 0x3000
  }

  predicate NoSpace(s: string) {
    forall i | 0 <= i < |s| :: !IsSpace(s[i])
  }

  /** Drops leading white space. */
  function TrimLeft(s: string): (r: string)
    ensures |r| <= |s| && r == s[|s| - |r|..]
    ensures r == [] || !IsSpace(r[0])
    ensures forall i | 0 <= i < |s| - |r| :: IsSpace(s[i])
  {
    if s == [] || !IsSpace(s[0]) then s else TrimLeft(s[1..])
  }

  /** Drops trailing white space. */
  function TrimRight(s: string): (r: string)
    ensures |r| <= |s| && r == s[..|r|]
    ensures r == [] || !IsSpace(r[|r| - 1])
    ensures forall i | |r| <= i < |s| :: IsSpace(s[i])
  {
    if s == [] || !IsSpace(s[|s| - 1]) then s else TrimRight(s[..|s| - 1])
  }

  /** `strings.TrimSpace`: the longest infix that neither starts nor ends with white space. */
  function TrimSpace(s: string): (r: string)
    ensures r == [] || (!IsSpace(r[0]) && !IsSpace(r[|r| - 1]))
  {
    TrimRight(TrimLeft(s))
  }

  /** Trimming both ends keeps a prefix of the left-trimmed text. */
  lemma TrimSpaceStartsTrimLeft(s: string)
    ensures TrimSpace(s) <= TrimLeft(s)
    ensures TrimLeft(TrimSpace(s)) == TrimSpace(s)
  {
  }

  /** Text that neither starts nor ends with white space is its own `TrimSpace`. */
  lemma TrimSpaceOfTrimmed(s: string)
    requires s == [] || (!IsSpace(s[0]) && !IsSpace(s[|s| - 1]))
    ensures TrimSpace(s) == s
  {
    assert TrimLeft(s) == s;
  }

  /** A leading white-space rune makes no difference to `TrimSpace`. */
  lemma TrimSpaceSkipsLeadingSpace(c: char, s: string)
    requires IsSpace(c)
    ensures TrimSpace([c] + s) == TrimSpace(s)
  {
    assert ([c] + s)[1..] == s;
  }

  /** A trailing white-space rune makes no difference to `TrimSpace`. */
  lemma TrimSpaceSkipsTrailingSpace(s: string, c: char)
    requires IsSpace(c)
    ensures TrimSpace(s + [c]) == TrimSpace(s)
  {
    var l := TrimLeft(s + [c]);
    if TrimLeft(s) == [] {
      assert l == [] || l == [c];
    } else {
      TrimLeftPrefix(s, [c]);
      AppendSlices(TrimLeft(s), [c]);
    }
  }

  /** `strings.HasPrefix`. */
  predicate HasPrefix(s: string, prefix: string) {
    prefix <= s
  }

  /** `strings.TrimPrefix`. */
  function TrimPrefix(s: string, prefix: string): (r: string)
    ensures HasPrefix(s, prefix) ==> prefix + r == s
    ensures !HasPrefix(s, prefix) ==> r == s
  {
    if HasPrefix(s, prefix) then s[|prefix|..] else s
  }

  /** `strings.Contains`. */
  predicate Contains(s: string, sub: string)
    decreases |s|
  {
    sub <= s || (s != [] && Contains(s[1..], sub))
  }

  /** A sequence that contains `sub` somewhere contains it after any extension on the left. */
  lemma {:induction false} ContainsAt(s: string, sub: string, i: nat)
    requires i + |sub| <= |s| && s[i..i + |sub|] == sub
    ensures Contains(s, sub)
    decreases i
  {
    if i == 0 {
      assert sub <= s;
    } else {
      assert s[1..][i - 1..i - 1 + |sub|] == sub;
      ContainsAt(s[1..], sub, i - 1);
    }
  }

  /** A single-rune needle is contained exactly when the rune occurs. */
  lemma {:induction false} ContainsRune(s: string, c: char)
    ensures Contains(s, [c]) <==> c in s
  {
    if s != [] {
      ContainsRune(s[1..], c);
      assert s == [s[0]] + s[1..];
    }
  }

  /** `strings.Index` for a one-rune needle: the first position of `c`, or -1. */
  function IndexOf(s: string, c: char): (r: int)
    ensures -1 <= r < |s|
    ensures r == -1 <==> c !in s
    ensures r >= 0 ==> s[r] == c && c !in s[..r]
  {
    if s == [] then -1
    else if s[0] == c then 0
    else
      var k := IndexOf(s[1..], c);
      if k == -1 then -1
      else
        assert s[..k + 1] == [s[0]] + s[1..][..k];
        k + 1
  }

  /** `strings.LastIndex` for a one-rune needle: the last position of `c`, or -1. */
  function LastIndexOf(s: string, c: char): (r: int)
    ensures -1 <= r < |s|
    ensures r == -1 <==> c !in s
    ensures r >= 0 ==> s[r] == c && c !in s[r + 1..]
    ensures forall j | r < j < |s| :: s[j] != c
  {
    if s == [] then -1
    else if s[|s| - 1] == c then |s| - 1
    else
      assert s == s[..|s| - 1] + [s[|s| - 1]];
      LastIndexOf(s[..|s| - 1], c)
  }

  /** The first occurrence is where `c` occurs with none before it. */
  lemma IndexOfAt(s: string, c: char, i: int)
    requires 0 <= i < |s| && s[i] == c && c !in s[..i]
    ensures IndexOf(s, c) == i
  {
    var r := IndexOf(s, c);
    assert c in s by { assert s[i] == c; }
    assert forall j | 0 <= j < i :: s[..i][j] == s[j];
    assert forall k | i < k <= |s| :: s[..k][i] == c;
  }

  /** The last occurrence is where `c` occurs with none after it. */
  lemma LastIndexOfAt(s: string, c: char, i: int)
    requires 0 <= i < |s| && s[i] == c && c !in s[i + 1..]
    ensures LastIndexOf(s, c) == i
  {
    var r := LastIndexOf(s, c);
    assert c in s by { assert s[i] == c; }
    assert forall j | i < j < |s| :: s[i + 1..][j - i - 1] == s[j];
  }

  /** `strings.Join`. */
  function Join(parts: seq<string>, sep: string): string
  {
    if parts == [] then ""
    else if |parts| == 1 then parts[0]
    else parts[0] + sep + Join(parts[1..], sep)
  }

  /** `strings.Split` with a one-rune separator: the maximal runs between occurrences of `c`. */
  function Split(s: string, c: char): (r: seq<string>)
    ensures |r| >= 1
    decreases |s|
  {
    var i := IndexOf(s, c);
    if i == -1 then [s]
    else [s[..i]] + Split(s[i + 1..], c)
  }

  /** Joining the segments of `Split` with the separator gives the input back. */
  lemma {:induction false} SplitJoin(s: string, c: char)
    ensures Join(Split(s, c), [c]) == s
    decreases |s|
  {
    var i := IndexOf(s, c);
    if i != -1 {
      var t := s[i + 1..];
      SplitJoin(t, c);
      SplitStep(s, c);
      JoinCons(s[..i], Split(t, c), [c]);
      assert s == s[..i] + [c] + t by {
        RejoinAt(s, i);
      }
    }
  }

  /** A string is its prefix, the rune at `i` and its suffix. */
  lemma RejoinAt(s: string, i: nat)
    requires i < |s|
    ensures s == s[..i] + [s[i]] + s[i + 1..]
  {
  }

  /** Joining a non-empty tail after a head puts one separator between them. */
  lemma JoinCons(head: string, rest: seq<string>, sep: string)
    requires rest != []
    ensures Join([head] + rest, sep) == head + sep + Join(rest, sep)
  {
    assert ([head] + rest)[1..] == rest;
  }

  /** A string without the separator is a single segment. */
  lemma SplitNoSeparator(s: string, c: char)
    requires c !in s
    ensures Split(s, c) == [s]
  {
  }

  /** One separator between two separator-free parts gives exactly those two segments. */
  lemma SplitTwo(a: string, b: string, c: char)
    requires c !in a && c !in b
    ensures Split(a + [c] + b, c) == [a, b]
  {
    var s := a + [c] + b;
    assert s[|a|] == c;
    assert s[..|a|] == a;
    assert s[|a| + 1..] == b;
    var i := IndexOf(s, c);
    assert i == |a|;
    SplitNoSeparator(b, c);
  }

  /** The last segment of `Split`: the text after the last separator. */
  function LastSegment(s: string, c: char): (r: string)
    ensures c !in r
  {
    SegmentsFree(s, c);
    Last(Split(s, c))
  }

  /** No segment of `Split` contains the separator. */
  lemma {:induction false} SegmentsFree(s: string, c: char)
    ensures forall i | 0 <= i < |Split(s, c)| :: c !in Split(s, c)[i]
    decreases |s|
  {
    var i := IndexOf(s, c);
    if i != -1 {
      SegmentsFree(s[i + 1..], c);
      SplitStep(s, c);
      ConsElements(s[..i], Split(s[i + 1..], c));
    }
  }

  /** Past the first separator the last segment is unchanged. */
  lemma LastSegmentStep(s: string, c: char)
    requires c in s
    ensures LastSegment(s, c) == LastSegment(s[IndexOf(s, c) + 1..], c)
  {
    var i := IndexOf(s, c);
    var t := s[i + 1..];
    assert LastSegment(t, c) == Last(Split(t, c));
    SplitStep(s, c);
    LastOfCons(Split(s, c), s[..i], Split(s[i + 1..], c));
  }

  /** Up to the first separator is the first segment; `Split` goes on past it. */
  lemma SplitStep(s: string, c: char)
    requires c in s
    ensures Split(s, c) == [s[..IndexOf(s, c)]] + Split(s[IndexOf(s, c) + 1..], c)
  {
  }

  /** The separator-free suffix after the last separator is exactly `LastSegment`. */
  lemma {:induction false} LastSegmentOfSuffix(a: string, b: string, c: char)
    requires c !in b
    ensures LastSegment(a + [c] + b, c) == b
    decreases |a|
  {
    var s := a + [c] + b;
    var i := IndexOf(s, c);
    IndexOfJoin(a, b, c);
    LastSegmentStep(s, c);
    if i == |a| {
      SplitNoSeparator(b, c);
    } else {
      LastSegmentOfSuffix(a[i + 1..], b, c);
    }
  }

  /** The first separator of `a + [c] + b` lies in `a` or is the one between them. */
  lemma IndexOfJoin(a: string, b: string, c: char)
    ensures 0 <= IndexOf(a + [c] + b, c) <= |a|
    ensures IndexOf(a + [c] + b, c) == |a| ==> (a + [c] + b)[|a| + 1..] == b
    ensures IndexOf(a + [c] + b, c) < |a| ==>
      (a + [c] + b)[IndexOf(a + [c] + b, c) + 1..] == a[IndexOf(a + [c] + b, c) + 1..] + [c] + b
  {
    var s := a + [c] + b;
    var i := IndexOf(s, c);
    assert s[|a|] == c;
  }

  /** The longest leading run of non-space runes. */
  function Word(s: string): (r: string)
    ensures r <= s && NoSpace(r)
    ensures |r| < |s| ==> IsSpace(s[|r|])
    ensures s != [] && !IsSpace(s[0]) ==> r != []
  {
    if s == [] || IsSpace(s[0]) then [] else [s[0]] + Word(s[1..])
  }

  /** Every element is a non-empty run of non-space runes. */
  predicate AllWords(ws: seq<string>) {
    forall i | 0 <= i < |ws| :: ws[i] != [] && NoSpace(ws[i])
  }

  /** A word in front of words gives words. */
  lemma WordsCons(w: string, ws: seq<string>)
    requires w != [] && NoSpace(w) && AllWords(ws)
    ensures AllWords([w] + ws)
  {
    ConsElements(w, ws);
  }

  /** `strings.Fields`: the maximal runs of non-space runes, in order. */
  function Fields(s: string): (r: seq<string>)
    ensures AllWords(r)
    decreases |s|
  {
    var t := TrimLeft(s);
    if t == [] then []
    else
      var w := Word(t);
      var rest := Fields(t[|w|..]);
      WordsCons(w, rest);
      [w] + rest
  }

  /** True when every rune of `s` is white space (so `s` has no fields). */
  predicate AllSpace(s: string) {
    forall i | 0 <= i < |s| :: IsSpace(s[i])
  }

  /** The first field of a string begins at its first non-space rune. */
  lemma FirstFieldStartsTrimmed(s: string)
    requires Fields(s) != []
    ensures Fields(s)[0] <= TrimLeft(s)
  {
  }

  /** A run of non-space runes is its own first word. */
  lemma {:induction false} WordOfNoSpace(w: string)
    requires NoSpace(w)
    ensures Word(w) == w
    decreases |w|
  {
    if w != [] {
      WordOfNoSpace(w[1..]);
    }
  }

  /** The first word of a non-space run followed by white space is that run. */
  lemma {:induction false} WordBeforeSpace(w: string, rest: string)
    requires NoSpace(w) && rest != [] && IsSpace(rest[0])
    ensures Word(w + rest) == w
    decreases |w|
  {
    if w != [] {
      assert (w + rest)[1..] == w[1..] + rest;
      WordBeforeSpace(w[1..], rest);
    }
  }

  /** A word, one space and more text: the word is the first field, the text gives the rest. */
  lemma FieldsCons(w: string, s: string)
    requires w != [] && NoSpace(w)
    ensures Fields(w + " " + s) == [w] + Fields(s)
  {
    var t := w + " " + s;
    assert t[0] == w[0];
    assert TrimLeft(t) == t;
    WordBeforeSpace(w, " " + s);
    assert w + (" " + s) == t;
    assert t[|w|..] == " " + s;
    assert Fields(t) == [w] + Fields(" " + s);
    FieldsSkipSpace(s);
  }

  /** A leading space does not change the fields. */
  lemma FieldsSkipSpace(s: string)
    ensures Fields(" " + s) == Fields(s)
  {
    TrimLeftSkipsSpace(s);
  }

  /** A leading space does not change the left-trimmed text. */
  lemma TrimLeftSkipsSpace(s: string)
    ensures TrimLeft(" " + s) == TrimLeft(s)
  {
    var t := " " + s;
    assert t[0] == ' ' && t[1..] == s;
    TrimLeftStep(t);
  }

  /** One step of `TrimLeft`: a leading white-space rune is dropped. */
  lemma TrimLeftStep(s: string)
    requires s != [] && IsSpace(s[0])
    ensures TrimLeft(s) == TrimLeft(s[1..])
  {
  }

  /** Words are what `Fields` gives back after joining them with single spaces. */
  lemma {:induction false} FieldsOfJoin(ws: seq<string>)
    requires AllWords(ws)
    ensures Fields(Join(ws, " ")) == ws
    decreases |ws|
  {
    if |ws| == 1 {
      FieldsOfWord(ws[0]);
    } else if |ws| > 1 {
      FieldsOfJoin(ws[1..]);
      FieldsCons(ws[0], Join(ws[1..], " "));
      HeadTail(ws);
    }
  }

  /** A non-empty run of non-space runes is a single field. */
  lemma FieldsOfWord(w: string)
    requires w != [] && NoSpace(w)
    ensures Fields(w) == [w]
  {
    assert TrimLeft(w) == w;
    WordOfNoSpace(w);
    assert w[|w|..] == [];
  }

  /** Words joined by single spaces neither start nor end with white space. */
  lemma {:induction false} JoinWordsTrimmed(ws: seq<string>)
    requires ws != []
    requires AllWords(ws)
    ensures var j := Join(ws, " "); j != [] && !IsSpace(j[0]) && !IsSpace(j[|j| - 1])
    ensures TrimSpace(Join(ws, " ")) == Join(ws, " ")
    decreases |ws|
  {
    var j := Join(ws, " ");
    if |ws| > 1 {
      JoinWordsTrimmed(ws[1..]);
      var rest := Join(ws[1..], " ");
      assert j == ws[0] + " " + rest;
      assert j[|j| - 1] == rest[|rest| - 1];
      assert j[0] == ws[0][0];
    }
    TrimSpaceOfTrimmed(j);
  }

  /** Text that is not all white space keeps its trimmed start under any extension. */
  lemma {:induction false} TrimLeftPrefix(a: string, b: string)
    requires TrimLeft(a) != []
    ensures TrimLeft(a + b) == TrimLeft(a) + b
    decreases |a|
  {
    TailOfAppend(a, b);
    if IsSpace(a[0]) {
      TrimLeftPrefix(a[1..], b);
    }
  }

  /** A prefix of the left-trimmed text that ends in a non-space rune survives `TrimSpace`. */
  lemma TrimSpaceKeepsPrefix(s: string, p: string)
    requires p != [] && p <= TrimLeft(s) && !IsSpace(p[|p| - 1])
    ensures p <= TrimSpace(s)
  {
    var l := TrimLeft(s);
    var r := TrimRight(l);
    assert l[|p| - 1] == p[|p| - 1];
    assert |p| <= |r|;
    PrefixOfPrefix(p, l, |r|);
  }

  /** ASCII upper-to-lower case mapping; every other rune is unchanged. */
  function ToLowerRune(c: char): (r: char)
    ensures 'A' <= c <= 'Z' ==> 'a' <= r <= 'z' && r as int == c as int + 32
    ensures !('A' <= c <= 'Z') ==> r == c
  {
    if 'A' <= c <= 'Z' then (c as int + 32) as char else c
  }

  /** ASCII lower-to-upper case mapping; every other rune is unchanged. */
  function ToUpperRune(c: char): (r: char)
    ensures 'a' <= c <= 'z' ==> 'A' <= r <= 'Z' && r as int == c as int - 32
    ensures !('a' <= c <= 'z') ==> r == c
  {
    if 'a' <= c <= 'z' then (c as int - 32) as char else c
  }

  /** `strings.ToLower`, restricted to ASCII case mapping. */
  function ToLower(s: string): (r: string)
    ensures |r| == |s|
    ensures forall i | 0 <= i < |s| :: r[i] == ToLowerRune(s[i])
  {
    seq(|s|, i requires 0 <= i < |s| => ToLowerRune(s[i]))
  }

  /** `strings.ToUpper`, restricted to ASCII case mapping. */
  function ToUpper(s: string): (r: string)
    ensures |r| == |s|
    ensures forall i | 0 <= i < |s| :: r[i] == ToUpperRune(s[i])
  {
    seq(|s|, i requires 0 <= i < |s| => ToUpperRune(s[i]))
  }

  /** Upper-casing twice changes nothing more. */
  lemma ToUpperIdempotent(s: string)
    ensures ToUpper(ToUpper(s)) == ToUpper(s)
  {
  }

  /** Number of bytes of the UTF-8 encoding of one rune. */
  function RuneLen(c: char): (r: nat)
    ensures 1 <= r <= 4
    ensures r == 1 <==> c as int < 0x80
  {
    if c as int < 0x80 then 1
    else if c as int < 0x800 then 2
    else if c as int < 0x10000 then 3
    else 4
  }

  /** Go's `len` on a string: the number of bytes of its UTF-8 encoding. */
  function ByteLen(s: string): (r: nat)
    ensures |s| <= r <= 4 * |s|
  {
    if s == [] then 0 else RuneLen(s[0]) + ByteLen(s[1..])
  }

  /** For pure-ASCII text Go's byte length is the rune count. */
  lemma {:induction false} ByteLenAscii(s: string)
    requires forall i | 0 <= i < |s| :: s[i] as int < 0x80
    ensures ByteLen(s) == |s|
  {
    if s != [] {
      ByteLenAscii(s[1..]);
    }
  }
}
