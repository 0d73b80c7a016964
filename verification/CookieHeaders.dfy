/** What pasted headers and received Set-Cookie values amount to (platform/cookie.go:40-165, 735-754,
    791-810), stated on their text. */
module CookieHeaders {
  import opened Text
  import opened Cookie

  // ---- One cookie ----

  /** Letters, digits, '-', '_' and '.'. */
  predicate IsPlainName(name: string) {
    1 <= |name| <= 80 && forall i :: 0 <= i < |name| ==>
      'a' <= name[i] <= 'z' || 'A' <= name[i] <= 'Z' || '0' <= name[i] <= '9' || name[i] in {'-', '_', '.'}
  }

  /** The attributes of section 4.1.1 of RFC 6265, and four later ones. */
  const ATTRIBUTES := {"expires", "max-age", "domain", "path", "secure", "httponly", "samesite", "comment", "priority",
                       "partitioned"}

  /** Every cookie with a plain name that is no attribute, and a value that is not '=' only, is read. */
  lemma PlainCookieIsRead(name: string, value: string)
    requires IsPlainName(name) && AsciiLower(name) !in ATTRIBUTES
    requires Trimmed(value) && ';' !in value && '\r' !in value && '\n' !in value && exists c :: c in value && c != '='
    ensures Parse(name + "=" + value) == [Pair(name, value)]
  {
    hide Trim, Parse, Join, IsSpace;
    var p := Pair(name, value);
    assert WellFormed(p) by {
      PlainNameIsTrimmed(name);
      var c :| c in value && c != '=';
      var i :| 0 <= i < |value| && value[i] == c;
    }
    ParseJoin([p]);
    JoinOne(p);
  }

  lemma PlainNameIsTrimmed(name: string)
    requires IsPlainName(name)
    ensures Trimmed(name) && AllNameChars(name) && Trim(name) == name
  {
  }

  lemma JoinOne(p: Pair)
    requires Trimmed(p.name) && p.name != ""
    ensures Join([p]) == p.name + "=" + p.value
  {
    hide Trim;
    assert PrintPairs([p]) == PrintPairs([]) + [PrintPair(p)];
  }

  /** No attribute is ever read as a cookie, and no value holds a separator. */
  lemma ParsedAreNoAttributes(raw: string, p: Pair)
    requires p in Parse(raw)
    ensures AsciiLower(p.name) !in ATTRIBUTES && 1 <= |p.name| <= 80 && p.value != ""
    ensures Trimmed(p.name) && Trimmed(p.value) && '=' !in p.name && ';' !in p.name && ';' !in p.value
  {
    hide Parse;
    ParseWellFormed(raw);
  }

  /** A look-up finds the first cookie of that name in any case, and nothing if there is none. */
  lemma {:induction false} FirstOfName(ps: seq<Pair>, name: string, i: nat)
    requires i <= |ps| && forall j :: 0 <= j < i ==> !EqualFold(ps[j].name, name)
    requires i < |ps| ==> AsciiLower(ps[i].name) == AsciiLower(name)
    ensures FirstValue(ps, name) == if i < |ps| then Found(ps[i].value) else Missing
  {
    hide EqualFold;
    if i > 0 {
      FirstOfName(ps[1..], name, i - 1);
    } else if ps != [] {
      LowerFolds(ps[0].name, name);
    }
  }

  lemma LowerFolds(a: string, b: string)
    requires AsciiLower(a) == AsciiLower(b)
    ensures EqualFold(a, b)
  {
    forall i | 0 <= i < |a| ensures FoldChar(a[i]) == FoldChar(b[i]) {
      assert AsciiLower(a)[i] == AsciiLower(b)[i];
    }
  }

  // ---- Labels and lines ----

  /** "Cookie:" or "Set-Cookie:", in any case. */
  predicate IsLabel(head: string) {
    AsciiLower(head) in {"cookie:", "set-cookie:"}
  }

  lemma LabelShape(head: string)
    requires IsLabel(head)
    ensures |head| in {7, 11} && !IsSpace(head[0]) && '\n' !in head && '\r' !in head
    ensures forall s :: HasLabel(head + s, "cookie:") <==> |head| == 7
    ensures forall s :: |head| == 11 ==> HasLabel(head + s, "set-cookie:")
  {
    var lower := AsciiLower(head);
    forall s ensures HasLabel(head + s, "cookie:") <==> |head| == 7 {
      assert (head + s)[..7] == head[..7];
      assert AsciiLower(head[..7]) == lower[..7];
      assert |head| == 11 ==> lower[..7][0] == 's';
      assert |head| == 7 ==> head[..7] == head;
    }
    forall s | |head| == 11 ensures HasLabel(head + s, "set-cookie:") {
      assert (head + s)[..11] == head;
    }
    assert lower[0] in {'c', 's'};
    forall i | 0 <= i < |head| ensures head[i] !in {'\n', '\r'} {
      assert lower[i] == AsciiLowerChar(head[i]);
      assert lower[i] in lower;
    }
  }

  lemma StripsLabel(head: string, rest: string)
    requires IsLabel(head) && Trimmed(head + rest)
    ensures StripLabel(head + rest) == Trim(rest)
  {
    hide Trim, IsSpace, HasLabel, IsLabel;
    LabelShape(head);
    assert (head + rest)[|head|..] == rest;
  }

  lemma BlankIsDropped(blank: string, header: string)
    requires blank in {"", " "} && Trimmed(header)
    ensures Trim(blank + header) == header
  {
    hide Trim, IsSpace;
    SpaceIsSpace();
    if blank == " " {
      TrimSkipsLeadingSpace(' ', header);
      assert blank + header == [' '] + header;
    } else {
      assert blank + header == header;
    }
  }

  lemma LabelledIsOneLine(head: string, blank: string, header: string)
    requires IsLabel(head) && blank in {"", " "} && header != ""
    requires Trimmed(header) && '\n' !in header && '\r' !in header
    ensures var s := head + (blank + header); Trimmed(s) && '\n' !in s && '\r' !in s
  {
    hide IsSpace, HasLabel;
    LabelShape(head);
    var s := head + (blank + header);
    assert s[0] == head[0] && s[|s| - 1] == header[|header| - 1];
  }

  /** A labelled header, as copied from a browser, reads like the bare one. */
  lemma LabelIsDropped(head: string, blank: string, ps: seq<Pair>)
    requires IsLabel(head) && blank in {"", " "} && AllWellFormed(ps) && ps != []
    ensures Parse(head + blank + Join(ps)) == ps
  {
    hide Trim, IsSpace, Join, WellFormed, ParseFields, Split, HasLabel, IsLabel, StripLabel, Trimmed;
    var header, s := Join(ps), head + (blank + Join(ps));
    JoinShape(ps);
    LabelledIsOneLine(head, blank, header);
    assert head + blank + header == s;
    StripsLabel(head, blank + header);
    BlankIsDropped(blank, header);
    SplitNone(s, '\n');
    OneLine(s);
  }

  lemma {:induction false} CollapseOne(a: string, b: string)
    requires '\r' !in a && '\r' !in b
    ensures CollapseCrLf(a + "\r\n" + b) == a + "\n" + b
    decreases |a|
  {
    var s := a + "\r\n" + b;
    if a == "" {
      assert s[2..] == b;
    } else {
      assert s[1..] == a[1..] + "\r\n" + b;
      CollapseOne(a[1..], b);
      assert [a[0]] + (a[1..] + "\n" + b) == a + "\n" + b;
    }
  }

  lemma UnixLinesOfTwo(a: string, b: string, ending: string)
    requires a != "" && b != "" && Trimmed(a) && Trimmed(b) && '\r' !in a && '\r' !in b && ending in {"\n", "\r\n"}
    ensures UnixLines(a + ending + b) == a + "\n" + b
  {
    hide Trim, IsSpace, CollapseCrLf;
    var s, lines := a + ending + b, a + "\n" + b;
    assert s[0] == a[0] && s[|s| - 1] == b[|b| - 1];
    assert Trimmed(s);
    assert '\r' !in lines;
    if ending == "\r\n" {
      CollapseOne(a, b);
    }
  }

  /** Headers on two lines, whatever the line ending, read one after the other. */
  lemma LinesAreRead(ps: seq<Pair>, qs: seq<Pair>, ending: string)
    requires AllWellFormed(ps) && AllWellFormed(qs) && ps != [] && qs != [] && ending in {"\n", "\r\n"}
    ensures Parse(Join(ps) + ending + Join(qs)) == ps + qs
  {
    hide Trim, IsSpace, Join, WellFormed, ParseLine, Split, UnixLines, Trimmed, ParseLines;
    var a, b := Join(ps), Join(qs);
    JoinShape(ps);
    JoinShape(qs);
    UnixLinesOfTwo(a, b, ending);
    assert a + "\n" + b == a + ['\n'] + b;
    SplitAppend(a, b, '\n');
    SplitNone(a, '\n');
    TwoLines(a, b);
    HeaderLine(ps);
    HeaderLine(qs);
  }

  lemma TwoLines(a: string, b: string)
    ensures ParseLines([a] + [b]) == ParseLine(a) + ParseLine(b)
  {
    hide ParseLine;
    assert ([a] + [b])[..1] == [a];
    assert [a][..0] == [];
    assert ParseLines([]) == [];
    assert ParseLines([a]) == [] + ParseLine(a);
  }

  lemma HeaderLine(ps: seq<Pair>)
    requires AllWellFormed(ps) && ps != []
    ensures ParseLine(Join(ps)) == ps
  {
    hide Trim, IsSpace, Join, WellFormed, ParseFields, Split;
    JoinShape(ps);
    assert WellFormed(ps[0]);
    NoLabel(ps[0], Join(ps), "cookie:");
    NoLabel(ps[0], Join(ps), "set-cookie:");
  }

  // ---- Set-Cookie ----

  lemma {:induction false} TrailBehind(s: string, lo: nat, i: nat, k: nat)
    requires lo <= k < i <= |s| && !IsSpace(s[k])
    ensures Trail(s, lo, i) > k
  {
    if k < i - 1 && IsSpace(s[i - 1]) {
      TrailBehind(s, lo, i - 1, k);
    }
  }

  /** Attributes behind a pair: nothing, or anything from a ';' on. */
  predicate IsTail(tail: string) {
    tail == "" || tail[0] == ';'
  }

  /** A Set-Cookie value gives its pair, whatever attributes follow. */
  lemma SetCookieGivesPair(p: Pair, tail: string)
    requires WellFormed(p) && IsTail(tail)
    ensures SetCookiePair(PrintPair(p) + tail) == [p]
  {
    hide WellFormed, PrintPair, IsSpace, Trim, HasLabel, Split, IndexOf;
    var pair, raw := PrintPair(p), PrintPair(p) + tail;
    PrintedPairShape(p);
    var t := Trim(raw);
    assert pair <= t && (t == pair || t[|pair|] == ';') by {
      TrimKeepsPair(pair, tail);
    }
    NoLabel(p, t, "cookie:");
    NoLabel(p, t, "set-cookie:");
    assert StripLabel(raw) == t;
    FirstField(pair, t);
    NameTrimmed(p);
    NameNonEmpty(p);
    assert Trim(pair) == pair && Pair(p.name, p.value) == p;
  }

  lemma NameTrimmed(p: Pair)
    requires WellFormed(p)
    ensures Trim(p.name) == p.name
  {
  }

  lemma TrimKeepsPair(pair: string, tail: string)
    requires pair != "" && Trimmed(pair) && IsTail(tail)
    ensures var t := Trim(pair + tail); pair <= t && (t == pair || t[|pair|] == ';')
  {
    var raw := pair + tail;
    assert !IsSpace(raw[0]);
    assert Lead(raw, 0) == 0;
    if tail == "" {
      assert raw == pair;
    } else {
      SemicolonIsNoSpace();
      assert raw[|pair|] == ';';
      TrailBehind(raw, 0, |raw|, |pair|);
    }
  }

  lemma SemicolonIsNoSpace()
    ensures !IsSpace(';')
  {
  }

  lemma FirstField(pair: string, t: string)
    requires ';' !in pair && pair <= t && (t == pair || t[|pair|] == ';')
    ensures Split(t, ';')[0] == pair
  {
    if t == pair {
      SplitNone(t, ';');
    } else {
      IndexOfIs(t, ';', |pair|);
    }
  }

  /** After Set-Cookie values were merged into a header, the last one of them is in it, once; any other
      cookie is there exactly if it was without that value. */
  lemma SetCookieIsMerged(header: string, earlier: seq<string>, p: Pair, tail: string, q: Pair)
    requires WellFormed(p) && IsTail(tail)
    ensures var was := Parse(NormalizeHeader(MergeSetCookies(header, earlier)));
      var now := Parse(MergeSetCookies(header, earlier + [PrintPair(p) + tail]));
      && DistinctNames(now) && p in now
      && (q.name != p.name ==> (q in now <==> q in was))
  {
    hide Parse, Join, WellFormed, PrintPair, SetCookiePair, Merge, DistinctNames, WritesAt;
    var all := earlier + [PrintPair(p) + tail];
    assert all[..|all| - 1] == earlier;
    SetCookieGivesPair(p, tail);
    var before := MergeSetCookies(header, earlier);
    var ps := Parse(before);
    ParseWellFormed(before);
    ParseMerged(ps);
    ParseMerged(ps + [p]);
    MergeOneMore(ps, p, q);
  }

  lemma MergeOneMore(ps: seq<Pair>, p: Pair, q: Pair)
    requires WellFormed(p)
    ensures var was, now := Merge(ps), Merge(ps + [p]);
      && DistinctNames(now) && p in now
      && (q.name != p.name ==> (q in now <==> q in was))
  {
    hide MergeOver, Upsert, IsSetCookieAttribute, IsPadding, Plain, AllNameChars, DistinctNames, Trim;
    assert (ps + [p])[..|ps|] == ps;
    assert Trim(p.name) == p.name != "" by { NameTrimmed(p); }
    MergeClean(ps);
    MergeClean(ps + [p]);
    MergeSnoc(ps, p);
    var m := Merge(ps);
    var i := WriteIndex(m, p.name);
    UpsertAt(m, p, i);
    if i < |m| {
      assert m[i := p][i] == p;
      if q.name != p.name {
        OnlyOneChanged(m, i, p, q);
      }
    }
  }

  lemma MergeSnoc(ps: seq<Pair>, p: Pair)
    requires Trim(p.name) == p.name != ""
    ensures Merge(ps + [p]) == Upsert(Merge(ps), p)
  {
    hide Trim, Upsert;
    assert (ps + [p])[..|ps|] == ps;
  }

  lemma OnlyOneChanged(m: seq<Pair>, i: nat, p: Pair, q: Pair)
    requires i < |m| && m[i].name == p.name && q.name != p.name
    ensures q in m[i := p] <==> q in m
  {
    if q in m {
      var j :| 0 <= j < |m| && m[j] == q;
      assert m[i := p][j] == q;
    }
  }

  lemma {:induction false} FirstValueIs(ps: seq<Pair>, p: Pair)
    requires p in ps && forall q :: q in ps && EqualFold(q.name, p.name) ==> q == p
    ensures FirstValue(ps, p.name) == Found(p.value)
  {
    hide EqualFold;
    if ps[0] != p {
      FirstValueIs(ps[1..], p);
    } else {
      SameFolds(p.name);
    }
  }

  lemma SameFolds(s: string)
    ensures EqualFold(s, s)
  {
  }

  /** And it is what a look-up of its name finds, unless the header holds the name in another case. */
  lemma SetCookieIsRead(header: string, earlier: seq<string>, p: Pair, tail: string)
    requires WellFormed(p) && IsTail(tail)
    requires forall q :: q in Parse(NormalizeHeader(MergeSetCookies(header, earlier))) && EqualFold(q.name, p.name)
               ==> q.name == p.name
    ensures CookieValueFromHeader(MergeSetCookies(header, earlier + [PrintPair(p) + tail]), p.name) == Found(p.value)
  {
    hide Parse, MergeSetCookies, NormalizeHeader, EqualFold, PrintPair, WellFormed, DistinctNames;
    var now := Parse(MergeSetCookies(header, earlier + [PrintPair(p) + tail]));
    forall q | q in now && EqualFold(q.name, p.name) ensures q == p {
      SetCookieIsMerged(header, earlier, p, tail, q);
      if q.name == p.name {
        SameName(now, p, q);
      }
    }
    SetCookieIsMerged(header, earlier, p, tail, p);
    FirstValueIs(now, p);
    assert Trim(p.name) == p.name != "" by { NameTrimmed(p); NameNonEmpty(p); }
  }

  lemma NameNonEmpty(p: Pair)
    requires WellFormed(p)
    ensures p.name != ""
  {
  }

  lemma SameName(ps: seq<Pair>, p: Pair, q: Pair)
    requires DistinctNames(ps) && p in ps && q in ps && p.name == q.name
    ensures p == q
  {
    var i :| 0 <= i < |ps| && ps[i] == p;
    var j :| 0 <= j < |ps| && ps[j] == q;
  }
}
