/** The string operations of Go's `strings` package that the program relies on, over
    sequences of Unicode scalar values. */
module Text {

  // ---- White space (Go's unicode.IsSpace) and trimming ----

  predicate IsSpace(c: char) {
    || '\t' <= c <= '\r'
    || c == ' '
    || c == '\U{0085}'
    || c == '\U{00A0}'
    || c == '\U{1680}'
    || '\U{2000}' <= c <= '\U{200a}'
    || c == '\U{2028}'
    || c == '\U{2029}'
    || c == '\U{202f}'
    || c == '\U{205f}'
    || c == '\U{3000}'
  }

  /** No white space at either end. */
  predicate Trimmed(s: string) {
    s == "" || (!IsSpace(s[0]) && !IsSpace(s[|s| - 1]))
  }

  /** The first position from `i` on that holds no white space, or the end. */
  function Lead(s: string, i: nat): (r: nat)
    requires i <= |s|
    ensures i <= r <= |s| && (r < |s| ==> !IsSpace(s[r]))
    decreases |s| - i
  {
    if i < |s| && IsSpace(s[i]) then Lead(s, i + 1) else i
  }

  /** The position behind the last one before `i` that holds no white space, or `lo`. */
  function Trail(s: string, lo: nat, i: nat): (r: nat)
    requires lo <= i <= |s|
    ensures lo <= r <= i && (r > lo ==> !IsSpace(s[r - 1]))
  {
    if i > lo && IsSpace(s[i - 1]) then Trail(s, lo, i - 1) else i
  }

  /** strings.TrimSpace */
  function Trim(s: string): (r: string)
    ensures Trimmed(r)
    ensures Trimmed(s) ==> r == s
  {
    s[Lead(s, 0)..Trail(s, Lead(s, 0), |s|)]
  }

  predicate AllSpace(s: string) {
    forall i :: 0 <= i < |s| ==> IsSpace(s[i])
  }

  /** Only white space is dropped. */
  lemma TrimDropsSpace(s: string)
    ensures exists i, j :: 0 <= i <= j <= |s| && Trim(s) == s[i..j] && AllSpace(s[..i]) && AllSpace(s[j..])
  {
    LeadDropsSpace(s, 0);
    TrailDropsSpace(s, Lead(s, 0), |s|);
    var i, j := Lead(s, 0), Trail(s, Lead(s, 0), |s|);
    assert AllSpace(s[..i]) && AllSpace(s[j..]);
  }

  lemma {:induction false} LeadDropsSpace(s: string, i: nat)
    requires i <= |s|
    ensures forall k :: i <= k < Lead(s, i) ==> IsSpace(s[k])
    decreases |s| - i
  {
    if i < |s| && IsSpace(s[i]) {
      LeadDropsSpace(s, i + 1);
    }
  }

  lemma {:induction false} TrailDropsSpace(s: string, lo: nat, i: nat)
    requires lo <= i <= |s|
    ensures forall k :: Trail(s, lo, i) <= k < i ==> IsSpace(s[k])
  {
    if i > lo && IsSpace(s[i - 1]) {
      TrailDropsSpace(s, lo, i - 1);
    }
  }

  lemma TrimEmpty()
    ensures Trim("") == ""
  {
    assert Trimmed("");
  }

  lemma TrimOfTrim(s: string)
    ensures Trim(Trim(s)) == Trim(s)
  {
    hide Trim;
  }

  /** Trimming only drops characters. */
  lemma TrimChars(s: string, c: char)
    requires c in Trim(s)
    ensures c in s
  {
  }

  lemma {:induction false} LeadShifts(c: char, s: string, i: nat)
    requires i <= |s|
    ensures Lead([c] + s, i + 1) == Lead(s, i) + 1
    decreases |s| - i
  {
    if i < |s| && IsSpace(s[i]) {
      LeadShifts(c, s, i + 1);
    }
  }

  lemma {:induction false} TrailShifts(c: char, s: string, lo: nat, i: nat)
    requires lo <= i <= |s|
    ensures Trail([c] + s, lo + 1, i + 1) == Trail(s, lo, i) + 1
  {
    if i > lo && IsSpace(s[i - 1]) {
      TrailShifts(c, s, lo, i - 1);
    }
  }

  /** Leading white space does not change what TrimSpace returns. */
  lemma TrimSkipsLeadingSpace(c: char, s: string)
    requires IsSpace(c)
    ensures Trim([c] + s) == Trim(s)
  {
    LeadShifts(c, s, 0);
    TrailShifts(c, s, Lead(s, 0), |s|);
    assert Lead([c] + s, 0) == Lead([c] + s, 1);
    hide Lead, Trail;
    SliceShifts(c, s, Lead(s, 0), Trail(s, Lead(s, 0), |s|));
  }

  lemma SliceShifts(c: char, s: string, lo: nat, hi: nat)
    requires lo <= hi <= |s|
    ensures ([c] + s)[lo + 1..hi + 1] == s[lo..hi]
  {
  }

  // ---- Case folding ----

  /** ASCII lower case. The only other characters Go maps into ASCII are the Kelvin sign and
      the dotted capital I. */
  function LowerChar(c: char): char {
    if 'A' <= c <= 'Z' then c - 'A' + 'a'
    else if c == '\U{212A}' then 'k'
    else if c == '\U{0130}' then 'i'
    else c
  }

  function Lower(s: string): (r: string)
    ensures |r| == |s|
    ensures forall i :: 0 <= i < |s| ==> r[i] == LowerChar(s[i])
  {
    seq(|s|, i requires 0 <= i < |s| => LowerChar(s[i]))
  }

  /** Lower case restricted to A-Z. */
  function AsciiLowerChar(c: char): char {
    if 'A' <= c <= 'Z' then c - 'A' + 'a' else c
  }

  function AsciiLower(s: string): (r: string)
    ensures |r| == |s|
    ensures forall i :: 0 <= i < |s| ==> r[i] == AsciiLowerChar(s[i])
  {
    seq(|s|, i requires 0 <= i < |s| => AsciiLowerChar(s[i]))
  }

  /** Upper case; two non-ASCII letters map into ASCII. */
  function UpperChar(c: char): char {
    if 'a' <= c <= 'z' then c - 'a' + 'A'
    else if c == '\U{0131}' then 'I'
    else if c == '\U{017F}' then 'S'
    else c
  }

  function Upper(s: string): (r: string)
    ensures |r| == |s|
  {
    seq(|s|, i requires 0 <= i < |s| => UpperChar(s[i]))
  }

  /** The representative strings.EqualFold compares, for letters that fold into ASCII. */
  function FoldChar(c: char): char {
    if c == '\U{017F}' then 's' else if c == '\U{212A}' then 'k' else AsciiLowerChar(c)
  }

  predicate EqualFold(a: string, b: string) {
    |a| == |b| && forall i :: 0 <= i < |a| ==> FoldChar(a[i]) == FoldChar(b[i])
  }

  // ---- Searching and splitting ----

  /** The first position of `c`, or |s| when it does not occur. */
  function IndexOf(s: string, c: char): (i: nat)
    ensures i <= |s|
    ensures forall j :: 0 <= j < i ==> s[j] != c
    ensures i < |s| ==> s[i] == c
  {
    if s == "" || s[0] == c then 0 else 1 + IndexOf(s[1..], c)
  }

  lemma IndexOfIs(s: string, c: char, i: nat)
    requires i < |s| && s[i] == c
    requires forall j :: 0 <= j < i ==> s[j] != c
    ensures IndexOf(s, c) == i
  {
  }

  /** strings.Split on a one-character separator. */
  function Split(s: string, sep: char): (parts: seq<string>)
    ensures |parts| >= 1
    decreases |s|
  {
    var i := IndexOf(s, sep);
    if i == |s| then [s] else [s[..i]] + Split(s[i + 1..], sep)
  }

  /** Fields hold only characters of the text, and never the separator. */
  lemma {:induction false} SplitFields(s: string, sep: char)
    ensures forall p :: p in Split(s, sep) ==> forall c :: c in p ==> c in s && c != sep
    decreases |s|
  {
    var i := IndexOf(s, sep);
    if i < |s| {
      SplitFields(s[i + 1..], sep);
    }
  }

  lemma SplitNone(s: string, sep: char)
    requires sep !in s
    ensures Split(s, sep) == [s]
  {
  }

  /** Splitting after appending one more separator-free field. */
  lemma {:induction false} SplitAppend(a: string, b: string, sep: char)
    requires sep !in b
    ensures Split(a + [sep] + b, sep) == Split(a, sep) + [b]
    decreases |a|
  {
    var s := a + [sep] + b;
    var i := IndexOf(a, sep);
    IndexOfIs(s, sep, i);
    if i == |a| {
      assert s[..i] == a && s[i + 1..] == b;
      SplitNone(b, sep);
    } else {
      var rest := a[i + 1..];
      assert s[..i] == a[..i] && s[i + 1..] == rest + [sep] + b;
      SplitAppend(rest, b, sep);
      assert [a[..i]] + (Split(rest, sep) + [b]) == [a[..i]] + Split(rest, sep) + [b];
    }
  }

  /** strings.Join */
  function JoinStrings(parts: seq<string>, sep: string): string {
    if |parts| == 0 then ""
    else if |parts| == 1 then parts[0]
    else JoinStrings(parts[..|parts| - 1], sep) + sep + parts[|parts| - 1]
  }

  // ---- Line endings ----

  /** ReplaceAll "\r\n" by "\n". */
  function CollapseCrLf(s: string): (r: string)
    ensures '\r' !in s ==> r == s
  {
    if |s| >= 2 && s[0] == '\r' && s[1] == '\n' then "\n" + CollapseCrLf(s[2..])
    else if s == "" then ""
    else [s[0]] + CollapseCrLf(s[1..])
  }

  /** ReplaceAll "\r" by "\n". */
  function ReplaceCr(s: string): (r: string)
    ensures '\r' !in r
    ensures '\r' !in s ==> r == s
  {
    seq(|s|, i requires 0 <= i < |s| => if s[i] == '\r' then '\n' else s[i])
  }
}
