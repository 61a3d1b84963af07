/** Strings as the library routines of the source see them: ordering, sorting, joining. */
module Text {
  import opened Bytes

  /** Octets read as characters. */
  function Str(b: bytes): (s: string)
    ensures |s| == |b|
  {
    seq(|b|, i requires 0 <= i < |b| => b[i] as char)
  }

  /** A character of a Go string is an octet. */
  function Octet(c: char): byte {
    c as int % 0x100
  }

  function Octets(s: string): (b: bytes)
    ensures |b| == |s|
  {
    seq(|s|, i requires 0 <= i < |s| => Octet(s[i]))
  }

  predicate IsOctets(s: string) {
    forall i :: 0 <= i < |s| ==> s[i] as int < 0x100
  }

  lemma OctetsRead(s: string)
    requires IsOctets(s)
    ensures Str(Octets(s)) == s
  {
  }

  // ---- Lexicographic order, as Go's < on strings ----

  predicate StrLt(a: string, b: string) {
    if b == [] then false
    else if a == [] then true
    else if a[0] != b[0] then a[0] < b[0]
    else StrLt(a[1..], b[1..])
  }

  lemma {:induction false} StrLtTransitive(a: string, b: string, c: string)
    requires StrLt(a, b) && StrLt(b, c)
    ensures StrLt(a, c)
  {
    if a != [] && a[0] == b[0] == c[0] {
      StrLtTransitive(a[1..], b[1..], c[1..]);
    }
  }

  lemma {:induction false} StrLtTotal(a: string, b: string)
    ensures a == b || StrLt(a, b) || StrLt(b, a)
    ensures !(StrLt(a, b) && StrLt(b, a))
    ensures StrLt(a, b) || StrLt(b, a) ==> a != b
  {
    if a == [] || b == [] {
    } else if a[0] == b[0] {
      StrLtTotal(a[1..], b[1..]);
      assert a == [a[0]] + a[1..] && b == [b[0]] + b[1..];
    }
  }

  // ---- sort.Strings: some sorted permutation, and there is only one ----

  predicate Sorted(s: seq<string>) {
    forall i, j :: 0 <= i < j < |s| ==> !StrLt(s[j], s[i])
  }

  function Insert(x: string, s: seq<string>): seq<string> {
    if s == [] || !StrLt(s[0], x) then [x] + s else [s[0]] + Insert(x, s[1..])
  }

  function SortStrings(s: seq<string>): seq<string> {
    if s == [] then [] else Insert(s[0], SortStrings(s[1..]))
  }

  lemma {:induction false} InsertMultiset(x: string, s: seq<string>)
    ensures multiset(Insert(x, s)) == multiset{x} + multiset(s)
  {
    if s == [] || !StrLt(s[0], x) {
      assert multiset([x] + s) == multiset([x]) + multiset(s);
    } else {
      InsertMultiset(x, s[1..]);
      assert s == [s[0]] + s[1..];
      assert multiset([s[0]] + Insert(x, s[1..])) == multiset{s[0]} + multiset(Insert(x, s[1..]));
    }
  }

  lemma {:induction false} InsertSorted(x: string, s: seq<string>)
    requires Sorted(s)
    ensures Sorted(Insert(x, s))
  {
    if s == [] {
    } else if !StrLt(s[0], x) {
      forall j | 0 <= j < |s|
        ensures !StrLt(s[j], x)
      {
        if j > 0 {
          NotLessChain(x, s[0], s[j]);
        }
      }
    } else {
      var rest := Insert(x, s[1..]);
      InsertSorted(x, s[1..]);
      InsertMultiset(x, s[1..]);
      forall j | 0 <= j < |rest|
        ensures !StrLt(rest[j], s[0])
      {
        assert rest[j] in multiset(rest);
        assert rest[j] == x || rest[j] in s[1..];
        StrLtTotal(s[0], x);
      }
    }
  }

  lemma NotLessChain(a: string, b: string, c: string)
    requires !StrLt(b, a) && !StrLt(c, b)
    ensures !StrLt(c, a)
  {
    StrLtTotal(a, b);
    StrLtTotal(b, c);
    if StrLt(c, a) {
      if a != b {
        StrLtTransitive(c, a, b);
      }
    }
  }

  lemma {:induction false} SortStringsSorts(s: seq<string>)
    ensures Sorted(SortStrings(s)) && multiset(SortStrings(s)) == multiset(s)
  {
    if s != [] {
      SortStringsSorts(s[1..]);
      InsertSorted(s[0], SortStrings(s[1..]));
      InsertMultiset(s[0], SortStrings(s[1..]));
      assert s == [s[0]] + s[1..];
    }
  }

  lemma HeadIsLeast(a: seq<string>, x: string)
    requires Sorted(a) && x in a
    ensures !StrLt(x, a[0])
  {
    var i :| 0 <= i < |a| && a[i] == x;
    StrLtTotal(x, a[0]);
  }

  lemma TailSorted(a: seq<string>)
    requires Sorted(a) && a != []
    ensures Sorted(a[1..])
  {
  }

  lemma TailMultiset(a: seq<string>)
    requires a != []
    ensures multiset(a) == multiset{a[0]} + multiset(a[1..])
  {
    assert a == [a[0]] + a[1..];
  }

  /** Any two sorted lists of the same strings are equal, so every correct sort agrees with this one. */
  lemma {:induction false} SortedIsUnique(a: seq<string>, b: seq<string>)
    requires Sorted(a) && Sorted(b) && multiset(a) == multiset(b)
    ensures a == b
  {
    hide StrLt, Sorted;
    SameSize(a, b);
    if a != [] {
      TailSorted(a);
      TailSorted(b);
      assert a[0] in multiset(a) && b[0] in multiset(b);
      HeadIsLeast(a, b[0]);
      HeadIsLeast(b, a[0]);
      StrLtTotal(a[0], b[0]);
      TailMultiset(a);
      TailMultiset(b);
      assert multiset(a[1..]) == multiset(b[1..]) by {
        assert multiset(a[1..]) == multiset(a) - multiset{a[0]};
        assert multiset(b[1..]) == multiset(b) - multiset{a[0]};
      }
      SortedIsUnique(a[1..], b[1..]);
      assert a == [a[0]] + a[1..] && b == [b[0]] + b[1..];
    }
  }

  lemma SameSize<T>(a: seq<T>, b: seq<T>)
    requires multiset(a) == multiset(b)
    ensures |a| == |b|
  {
    assert |a| == |multiset(a)| && |b| == |multiset(b)|;
  }

  /** Sorting forgets exactly the order: results agree iff the inputs are permutations. */
  lemma SortForgetsOrder(a: seq<string>, b: seq<string>)
    ensures SortStrings(a) == SortStrings(b) <==> multiset(a) == multiset(b)
  {
    SortStringsSorts(a);
    SortStringsSorts(b);
    if multiset(a) == multiset(b) {
      SortedIsUnique(SortStrings(a), SortStrings(b));
    }
  }

  // ---- strings.Join ----

  function Join(parts: seq<string>, sep: string): string {
    if parts == [] then ""
    else if |parts| == 1 then parts[0]
    else parts[0] + sep + Join(parts[1..], sep)
  }

  // ---- strings.TrimSpace, strings.Split, strings.ToLower, on ASCII ----

  predicate IsSpace(c: char) {
    c == ' ' || '\t' <= c <= '\r'
  }

  function TrimLeft(s: string): (t: string)
    ensures |t| <= |s|
    ensures t == [] || !IsSpace(t[0])
  {
    if s != [] && IsSpace(s[0]) then TrimLeft(s[1..]) else s
  }

  function TrimRight(s: string): (t: string)
    ensures t <= s
    ensures t == [] || !IsSpace(t[|t| - 1])
  {
    if s != [] && IsSpace(s[|s| - 1]) then TrimRight(s[..|s| - 1]) else s
  }

  function TrimSpace(s: string): (t: string)
    ensures t == [] || (!IsSpace(t[0]) && !IsSpace(t[|t| - 1]))
  {
    TrimRight(TrimLeft(s))
  }

  function Split(s: string, sep: char): (parts: seq<string>)
    ensures parts != []
  {
    if s == [] then [""]
    else
      var rest := Split(s[1..], sep);
      if s[0] == sep then [""] + rest else [[s[0]] + rest[0]] + rest[1..]
  }

  /** Splitting a concatenation at the separator. */
  lemma {:induction false} SplitConcat(a: string, b: string, sep: char)
    ensures Split(a + [sep] + b, sep) == Split(a, sep) + Split(b, sep)
  {
    var s := a + [sep] + b;
    if a == [] {
      assert s[1..] == b;
    } else {
      assert s[1..] == a[1..] + [sep] + b;
      SplitConcat(a[1..], b, sep);
    }
  }

  lemma {:induction false} SplitNone(s: string, sep: char)
    requires sep !in s
    ensures Split(s, sep) == [s]
  {
    if s != [] {
      assert forall c :: c in s[1..] ==> c in s;
      SplitNone(s[1..], sep);
      assert s == [s[0]] + s[1..];
    }
  }

  /** Splitting undoes joining for a non-empty list of parts that are free of the separator. */
  lemma {:induction false} SplitJoin(parts: seq<string>, sep: char)
    requires parts != [] && forall i :: 0 <= i < |parts| ==> sep !in parts[i]
    ensures Split(Join(parts, [sep]), sep) == parts
  {
    SplitNone(parts[0], sep);
    if |parts| == 1 {
    } else {
      SplitJoin(parts[1..], sep);
      SplitConcat(parts[0], Join(parts[1..], [sep]), sep);
    }
  }

  function LowerChar(c: char): (l: char)
    ensures !('A' <= l <= 'Z')
  {
    if 'A' <= c <= 'Z' then c + 32 as char else c
  }

  function ToLower(s: string): (t: string)
    ensures |t| == |s| && forall i :: 0 <= i < |s| ==> t[i] == LowerChar(s[i])
  {
    seq(|s|, i requires 0 <= i < |s| => LowerChar(s[i]))
  }

  lemma LowerIsStable(s: string)
    ensures ToLower(ToLower(s)) == ToLower(s)
  {
  }

  // ---- strings.Fields ----

  /** Characters before the first white space. */
  function WordLen(s: string): (k: nat)
    ensures k <= |s|
    ensures forall i :: 0 <= i < k ==> !IsSpace(s[i])
    ensures k < |s| ==> IsSpace(s[k])
  {
    if s == [] || IsSpace(s[0]) then 0 else 1 + WordLen(s[1..])
  }

  function Fields(s: string): (words: seq<string>)
    ensures forall i :: 0 <= i < |words| ==> words[i] != ""
    decreases |s|
  {
    if s == [] then []
    else if IsSpace(s[0]) then Fields(s[1..])
    else [s[..WordLen(s)]] + Fields(s[WordLen(s)..])
  }

  predicate IsWord(w: string) {
    w != "" && forall i :: 0 <= i < |w| ==> !IsSpace(w[i])
  }

  lemma FieldsStep(w: string, rest: string)
    requires IsWord(w) && (rest == "" || IsSpace(rest[0]))
    ensures Fields(w + rest) == [w] + Fields(rest)
  {
    var s := w + rest;
    assert s[0] == w[0];
    assert rest != "" ==> s[|w|] == rest[0];
    assert forall i :: 0 <= i < |w| ==> s[i] == w[i];
    assert WordLen(s) == |w|;
    assert s[..|w|] == w && s[|w|..] == rest;
    hide WordLen;
  }

  /** Taking a line apart into words undoes joining words by single spaces. */
  lemma {:induction false} FieldsOfJoin(words: seq<string>)
    requires forall i :: 0 <= i < |words| ==> IsWord(words[i])
    ensures Fields(Join(words, " ")) == words
  {
    NoWords();
    JoinUnfolds(words);
    hide Fields, Join, IsWord;
    if words == [] {
    } else if |words| == 1 {
      FieldsStep(words[0], "");
      assert words[0] + "" == words[0];
    } else {
      FieldsOfJoin(words[1..]);
      var tail := Join(words[1..], " ");
      FieldsStep(words[0], " " + tail);
      FieldsSkip(tail);
      assert words == [words[0]] + words[1..];
    }
  }

  lemma NoWords()
    ensures Fields("") == [] && Join([], " ") == ""
  {
  }

  lemma JoinUnfolds(words: seq<string>)
    ensures |words| == 1 ==> Join(words, " ") == words[0]
    ensures |words| > 1 ==> Join(words, " ") == words[0] + (" " + Join(words[1..], " "))
  {
  }

  lemma FieldsSkip(s: string)
    ensures Fields(" " + s) == Fields(s)
  {
    assert (" " + s)[1..] == s;
  }

  lemma {:induction false} WordsJoinTrimmed(words: seq<string>)
    requires words != [] && forall i :: 0 <= i < |words| ==> IsWord(words[i])
    ensures Join(words, " ") != "" && TrimSpace(Join(words, " ")) == Join(words, " ")
  {
    JoinEnds(words);
    TrimNothing(Join(words, " "));
  }

  lemma TrimNothing(t: string)
    requires t == "" || (!IsSpace(t[0]) && !IsSpace(t[|t| - 1]))
    ensures TrimSpace(t) == t
  {
  }

  lemma {:induction false} JoinEnds(words: seq<string>)
    requires words != [] && forall i :: 0 <= i < |words| ==> IsWord(words[i])
    ensures var s := Join(words, " ");
            s != "" && !IsSpace(s[0]) && !IsSpace(s[|s| - 1])
  {
    if |words| > 1 {
      JoinEnds(words[1..]);
      var s := Join(words, " ");
      assert s == words[0] + (" " + Join(words[1..], " "));
    }
  }
}
