/** The string operations the source leans on, on ASCII text. */
module Text {

  predicate IsUpper(c: char) {
    'A' <= c <= 'Z'
  }

  function LowerChar(c: char): char {
    if IsUpper(c) then c - 'A' + 'a' else c
  }

  predicate NoUpper(text: string) {
    forall i :: 0 <= i < |text| ==> !IsUpper(text[i])
  }

  lemma NoUpperConcat(a: string, b: string)
    requires NoUpper(a) && NoUpper(b)
    ensures NoUpper(a + b)
  {
  }

  /** `str.lower`. */
  function Lower(s: string): (r: string)
    ensures |r| == |s|
    ensures forall i :: 0 <= i < |s| ==> r[i] == LowerChar(s[i])
    ensures forall i :: 0 <= i < |r| ==> !IsUpper(r[i])
  {
    if s == "" then "" else [LowerChar(s[0])] + Lower(s[1..])
  }

  function UpperChar(c: char): char {
    if 'a' <= c <= 'z' then c - 'a' + 'A' else c
  }

  /** `str.upper`. */
  function Upper(s: string): (r: string)
    ensures |r| == |s| && forall i :: 0 <= i < |s| ==> r[i] == UpperChar(s[i])
  {
    seq(|s|, i requires 0 <= i < |s| => UpperChar(s[i]))
  }

  /** `str.lstrip(c)`. */
  function LStrip(s: string, c: char): (r: string)
    ensures r == [] || r[0] != c
    ensures |r| <= |s| && r == s[|s| - |r|..] && forall i :: 0 <= i < |s| - |r| ==> s[i] == c
  {
    if s != "" && s[0] == c then LStrip(s[1..], c) else s
  }

  /** `str.rstrip(c)`. */
  function RStripChar(s: string, c: char): (r: string)
    ensures r == [] || r[|r| - 1] != c
    ensures r <= s && forall i :: |r| <= i < |s| ==> s[i] == c
  {
    if s != "" && s[|s| - 1] == c then RStripChar(s[..|s| - 1], c) else s
  }

  /** `tld.lstrip(".").lower()` */
  function CleanTld(tld: string): (r: string)
    ensures NoUpper(r)
  {
    Lower(LStrip(tld, '.'))
  }

  /** `glue.join(words)`. */
  function Join(words: seq<string>, glue: string): string {
    if words == [] then ""
    else if |words| == 1 then words[0]
    else words[0] + glue + Join(words[1..], glue)
  }

  lemma LowerConcat(a: string, b: string)
    ensures Lower(a + b) == Lower(a) + Lower(b)
  {
  }

  lemma {:induction false} JoinConcat(a: seq<string>, b: seq<string>, glue: string)
    requires a != [] && b != []
    ensures Join(a + b, glue) == Join(a, glue) + glue + Join(b, glue)
  {
    if |a| == 1 {
      assert (a + b)[1..] == b;
    } else {
      assert (a + b)[1..] == a[1..] + b;
      JoinConcat(a[1..], b, glue);
      JoinStep(a + b, glue);
      JoinStep(a, glue);
    }
  }

  lemma JoinStep(words: seq<string>, glue: string)
    requires |words| > 1
    ensures Join(words, glue) == words[0] + glue + Join(words[1..], glue)
  {
  }

  // ----- Order of strings, by code point

  predicate Before(a: string, b: string) {
    if b == "" then false
    else if a == "" then true
    else if a[0] == b[0] then Before(a[1..], b[1..])
    else a[0] < b[0]
  }

  /** The first character in which two strings differ decides, and a prefix comes first. */
  lemma {:induction false} FirstDifferenceDecides(common: string, x: char, a: string, y: char, b: string)
    ensures x != y ==> (Before(common + [x] + a, common + [y] + b) <==> x < y)
    ensures Before(common, common + [x] + a)
  {
    var s, t := common + [x] + a, common + [y] + b;
    if common != "" {
      FirstDifferenceDecides(common[1..], x, a, y, b);
      assert s[0] == t[0] == common[0];
      assert s[1..] == common[1..] + [x] + a && t[1..] == common[1..] + [y] + b;
    }
  }

  lemma {:induction false} BeforeIsTotal(a: string, b: string)
    ensures Before(a, b) || Before(b, a) || a == b
  {
    if a != "" && b != "" && a[0] == b[0] {
      BeforeIsTotal(a[1..], b[1..]);
      assert a == [a[0]] + a[1..] && b == [b[0]] + b[1..];
    }
  }

  lemma {:induction false} BeforeIsTransitive(a: string, b: string, c: string)
    requires Before(a, b) && Before(b, c)
    ensures Before(a, c)
  {
    if a != "" && a[0] == b[0] == c[0] {
      BeforeIsTransitive(a[1..], b[1..], c[1..]);
    }
  }

  lemma {:induction false} BeforeIsIrreflexive(a: string)
    ensures !Before(a, a)
  {
    if a != "" {
      BeforeIsIrreflexive(a[1..]);
    }
  }

  predicate StrictlySorted(s: seq<string>) {
    forall i, j :: 0 <= i < j < |s| ==> Before(s[i], s[j])
  }

  function Inserted(x: string, s: seq<string>): (r: seq<string>)
    requires StrictlySorted(s)
    ensures StrictlySorted(r)
    ensures forall y :: y in r <==> y == x || y in s
  {
    if s == [] then [x]
    else if x == s[0] then
      assert forall y :: y in s <==> y == s[0] || y in s[1..];
      s
    else if Before(x, s[0]) then
      assert forall j :: 0 <= j < |s| ==> Before(x, s[j]) by {
        forall j | 1 <= j < |s| ensures Before(x, s[j]) {
          BeforeIsTransitive(x, s[0], s[j]);
        }
      }
      [x] + s
    else
      BeforeIsTotal(x, s[0]);
      assert forall y :: y in s <==> y == s[0] || y in s[1..];
      PrependKeepsSorted(s[0], Inserted(x, s[1..]));
      [s[0]] + Inserted(x, s[1..])
  }

  lemma PrependKeepsSorted(x: string, s: seq<string>)
    requires StrictlySorted(s) && forall y :: y in s ==> Before(x, y)
    ensures StrictlySorted([x] + s)
  {
  }

  /** `sorted(list(set(words)))`. */
  function SortedSet(words: seq<string>): (r: seq<string>)
    ensures StrictlySorted(r)
    ensures forall y :: y in r <==> y in words
  {
    if words == [] then [] else
      assert forall y :: y in words <==> y == words[0] || y in words[1..];
      Inserted(words[0], SortedSet(words[1..]))
  }

  /** A strictly sorted list is determined by its elements. */
  lemma {:induction false} SortedIsUnique(a: seq<string>, b: seq<string>)
    requires StrictlySorted(a) && StrictlySorted(b)
    requires forall y :: y in a <==> y in b
    ensures a == b
  {
    assert a != [] ==> a[0] in b;
    assert b != [] ==> b[0] in a;
    if a != [] {
      HeadIsFirst(a, b[0]);
      HeadIsFirst(b, a[0]);
      if Before(a[0], b[0]) && Before(b[0], a[0]) {
        BeforeIsTransitive(a[0], b[0], a[0]);
        BeforeIsIrreflexive(a[0]);
      }
      HeadIsNotInTail(a);
      HeadIsNotInTail(b);
      assert a == [a[0]] + a[1..] && b == [b[0]] + b[1..];
      forall y ensures y in a[1..] <==> y in b[1..] {
        assert y in a <==> y == a[0] || y in a[1..];
        assert y in b <==> y == b[0] || y in b[1..];
      }
      SortedIsUnique(a[1..], b[1..]);
    }
  }

  lemma HeadIsFirst(s: seq<string>, x: string)
    requires StrictlySorted(s) && x in s
    ensures x == s[0] || Before(s[0], x)
  {
  }

  lemma HeadIsNotInTail(s: seq<string>)
    requires StrictlySorted(s) && s != []
    ensures s[0] !in s[1..]
  {
    forall y | y in s[1..] ensures y != s[0] {
      BeforeIsIrreflexive(y);
      var i :| 0 <= i < |s[1..]| && s[1..][i] == y;
      assert Before(s[0], s[i + 1]);
    }
  }
}
