/** Cookie headers (platform/cookie.go): a tolerant parser for pasted Cookie / Set-Cookie text
    (section 4.2.1 of RFC 6265), a printer, and a last-write-wins merge. */
module Cookie {
  import opened Text

  datatype Pair = Pair(name: string, value: string)

  datatype Lookup = Missing | Found(value: string)

  // ---- What counts as a cookie ----

  predicate IsNameChar(c: char) {
    '\U{0020}' < c < '\U{007f}' && 
    c !in {'(', ')', '<', '>', '@', ',', ';', ':', '\\', '\"', '/', '[', ']', '?', '=', '{', '}'}
  }

  predicate AllNameChars(s: string) {
    forall i :: 0 <= i < |s| ==> IsNameChar(s[i])
  }

  predicate IsLikelyCookieName(name: string) {
    Trim(name) != "" && |Trim(name)| <= 80 && AllNameChars(Trim(name))
  }

  predicate IsSetCookieAttribute(name: string) {
    AsciiLower(name) in
      {"comment", "domain", "expires", "httponly", "max-age",
       "partitioned", "path", "priority", "samesite", "secure"}
  }

  /** An empty value, or one made of '=' only: base64 padding, not a cookie. */
  predicate IsPadding(value: string) {
    forall i :: 0 <= i < |value| ==> value[i] == '='
  }

  /** What every parsed pair satisfies. */
  predicate WellFormed(p: Pair) {
    && Trimmed(p.name) && IsLikelyCookieName(p.name) && !IsSetCookieAttribute(p.name)
    && Trimmed(p.value) && !IsPadding(p.value) && Plain(p.value)
  }

  /** No field or line separator. */
  predicate Plain(s: string) {
    ';' !in s && '\r' !in s && '\n' !in s
  }

  predicate AllWellFormed(ps: seq<Pair>) {
    forall p :: p in ps ==> WellFormed(p)
  }

  // ---- Parser specification ----

  predicate HasLabel(s: string, prefix: string) {
    |prefix| <= |s| && AsciiLower(s[..|prefix|]) == prefix
  }

  /** Drop a leading "Cookie:" or "Set-Cookie:". Folding ASCII letters only is enough here: the
      non-ASCII characters that also fold into ASCII leave a ':' in front of the first '=', and
      such a name is rejected with or without its label. */
  function StripLabel(raw: string): (r: string)
    ensures Trimmed(r)
  {
    var t := Trim(raw);
    if HasLabel(t, "cookie:") then Trim(t[7..])
    else if HasLabel(t, "set-cookie:") then Trim(t[11..])
    else t
  }

  /** One ';'-separated field: at most one pair. */
  function ParseField(field: string): (ps: seq<Pair>)
    ensures |ps| <= 1
  {
    var part := Trim(field);
    var eq := IndexOf(part, '=');
    if eq == 0 || eq == |part| then []
    else
      var name, value := Trim(part[..eq]), Trim(part[eq + 1..]);
      if IsPadding(value) || !IsLikelyCookieName(name) || IsSetCookieAttribute(name) then []
      else [Pair(name, value)]
  }

  function ParseFields(fields: seq<string>): seq<Pair> {
    if fields == [] then []
    else ParseFields(fields[..|fields| - 1]) + ParseField(fields[|fields| - 1])
  }

  function ParseLine(raw: string): seq<Pair> {
    ParseFields(Split(StripLabel(raw), ';'))
  }

  function ParseLines(lines: seq<string>): seq<Pair> {
    if lines == [] then []
    else ParseLines(lines[..|lines| - 1]) + ParseLine(lines[|lines| - 1])
  }

  /** The text with every line ending written as "\n". */
  function UnixLines(raw: string): (r: string)
    ensures '\r' !in r
    ensures '\r' !in raw ==> r == Trim(raw)
  {
    ReplaceCr(CollapseCrLf(Trim(raw)))
  }

  function Parse(raw: string): seq<Pair> {
    ParseLines(Split(UnixLines(raw), '\n'))
  }

  // ---- The parser, as loops appending to a slice ----

  method ParseCookiePairsFromSingle(raw: string) returns (pairs: seq<Pair>)
    ensures pairs == ParseLine(raw)
  {
    hide Trim, IsSetCookieAttribute, IsLikelyCookieName, IsPadding, StripLabel, Split, IndexOf, ParseFields;
    var text := StripLabel(raw);
    if text == "" {
      EmptyText();
      return [];
    }
    var parts := Split(text, ';');
    pairs := [];
    NoFields();
    for i := 0 to |parts|
      invariant pairs == ParseFields(parts[..i])
    {
      ParseFieldsNext(parts, i);
      BlankField();
      var part := Trim(parts[i]);
      if part == "" {
        continue;
      }
      var eq := IndexOf(part, '=');
      if eq == 0 || eq == |part| {
        continue;
      }
      var name, value := Trim(part[..eq]), Trim(part[eq + 1..]);
      if IsPadding(value) {
        continue;
      }
      if !IsLikelyCookieName(name) {
        continue;
      }
      if IsSetCookieAttribute(name) {
        continue;
      }
      pairs := pairs + [Pair(name, value)];
    }
    assert parts[..|parts|] == parts;
  }

  method ParseCookiePairs(raw: string) returns (pairs: seq<Pair>)
    ensures pairs == Parse(raw)
  {
    hide ParseLine, Trim, Split, ReplaceCr, CollapseCrLf;
    var trimmed := Trim(raw);
    var text := UnixLines(raw);
    EmptyText();
    if trimmed == "" {
      return [];
    }
    if '\n' in text {
      pairs := [];
      var lines := Split(text, '\n');
      for i := 0 to |lines|
        invariant pairs == ParseLines(lines[..i])
      {
        assert lines[..i + 1][..i] == lines[..i];
        var line := Trim(lines[i]);
        ParseLineOfTrim(lines[i]);
        if line == "" {
          continue;
        }
        var more := ParseCookiePairsFromSingle(line);
        pairs := pairs + more;
      }
      assert lines[..|lines|] == lines;
    } else {
      SplitNone(text, '\n');
      OneLine(text);
      pairs := ParseCookiePairsFromSingle(text);
    }
  }

  lemma ParseLineOfTrim(raw: string)
    ensures ParseLine(Trim(raw)) == ParseLine(raw)
  {
    hide Trim;
  }

  lemma OneLine(line: string)
    ensures ParseLines([line]) == ParseLine(line)
  {
    hide ParseLine;
    assert ParseLines([line]) == ParseLines([]) + ParseLine(line);
  }

  lemma NoFields()
    ensures ParseFields([]) == []
  {
  }

  lemma ParseFieldsNext(fields: seq<string>, i: nat)
    requires i < |fields|
    ensures ParseFields(fields[..i + 1]) == ParseFields(fields[..i]) + ParseField(fields[i])
  {
    assert fields[..i + 1][..i] == fields[..i];
  }

  lemma OneField(field: string)
    ensures ParseFields([field]) == ParseField(field)
  {
    hide ParseField;
    assert ParseFields([field]) == ParseFields([]) + ParseField(field);
  }

  lemma BlankField()
    ensures IndexOf("", '=') == 0
    ensures ParseField("") == []
  {
    hide IsSetCookieAttribute, IsLikelyCookieName;
    assert Trim("") == "";
  }

  lemma EmptyText()
    ensures ParseFields(Split("", ';')) == []
    ensures ParseLine("") == []
    ensures Parse("") == [] && UnixLines("") == ""
  {
    hide ParseField, Trim, ParseFields, ParseLines;
    SplitNone("", ';');
    SplitNone("", '\n');
    OneField("");
    OneLine("");
    BlankField();
    assert Trimmed("");
  }

  // ---- Printer ----

  function PrintPair(p: Pair): string {
    Trim(p.name) + "=" + p.value
  }

  function PrintPairs(ps: seq<Pair>): seq<string> {
    if ps == [] then []
    else
      var p := ps[|ps| - 1];
      PrintPairs(ps[..|ps| - 1]) + (if Trim(p.name) == "" then [] else [PrintPair(p)])
  }

  function Join(ps: seq<Pair>): string {
    JoinStrings(PrintPairs(ps), "; ")
  }

  method JoinCookiePairs(pairs: seq<Pair>) returns (header: string)
    ensures header == Join(pairs)
  {
    hide Trim, PrintPair;
    var parts := [];
    for i := 0 to |pairs|
      invariant parts == PrintPairs(pairs[..i])
    {
      assert pairs[..i + 1][..i] == pairs[..i];
      if Trim(pairs[i].name) == "" {
        continue;
      }
      parts := parts + [PrintPair(pairs[i])];
    }
    assert pairs[..|pairs|] == pairs;
    header := JoinStrings(parts, "; ");
  }

  // ---- Parsing yields well-formed pairs ----

  lemma TrimPlain(s: string)
    requires Plain(s)
    ensures Plain(Trim(s))
  {
    hide Trim;
    forall c | c in Trim(s) ensures c in s { TrimChars(s, c); }
  }

  lemma ParseFieldWellFormed(field: string)
    requires Plain(field)
    ensures AllWellFormed(ParseField(field))
  {
    hide Trim, IsSetCookieAttribute, AllNameChars;
    TrimPlain(field);
    var part := Trim(field);
    var eq := IndexOf(part, '=');
    if eq < |part| {
      assert Plain(part[eq + 1..]);
      TrimPlain(part[eq + 1..]);
    }
  }

  lemma {:induction false} ParseFieldsWellFormed(fields: seq<string>)
    requires forall f :: f in fields ==> Plain(f)
    ensures AllWellFormed(ParseFields(fields))
  {
    hide ParseField, WellFormed, Plain;
    if fields != [] {
      ParseFieldsWellFormed(fields[..|fields| - 1]);
      ParseFieldWellFormed(fields[|fields| - 1]);
    }
  }

  lemma ParseLineWellFormed(raw: string)
    requires '\n' !in raw && '\r' !in raw
    ensures AllWellFormed(ParseLine(raw))
  {
    hide Trim, ParseFields, WellFormed;
    var text := StripLabel(raw);
    var t := Trim(raw);
    forall c | c in text ensures c in raw {
      if HasLabel(t, "cookie:") {
        TrimChars(t[7..], c);
      } else if HasLabel(t, "set-cookie:") {
        TrimChars(t[11..], c);
      }
      TrimChars(raw, c);
    }
    SplitFields(text, ';');
    ParseFieldsWellFormed(Split(text, ';'));
  }

  lemma {:induction false} ParseLinesWellFormed(lines: seq<string>)
    requires forall l :: l in lines ==> '\n' !in l && '\r' !in l
    ensures AllWellFormed(ParseLines(lines))
  {
    hide ParseLine, WellFormed;
    if lines != [] {
      ParseLinesWellFormed(lines[..|lines| - 1]);
      ParseLineWellFormed(lines[|lines| - 1]);
    }
  }

  lemma ParseWellFormed(raw: string)
    ensures AllWellFormed(Parse(raw))
  {
    hide ParseLines, WellFormed;
    SplitFields(UnixLines(raw), '\n');
    ParseLinesWellFormed(Split(UnixLines(raw), '\n'));
  }

  // ---- Printing then parsing ----

  /** The name ends at the first '=' of a printed pair. */
  lemma PrintedPairShape(p: Pair)
    requires WellFormed(p)
    ensures |p.name| < |PrintPair(p)| && IndexOf(PrintPair(p), '=') == |p.name|
    ensures PrintPair(p)[..|p.name|] == p.name && PrintPair(p)[|p.name| + 1..] == p.value
    ensures Trimmed(PrintPair(p)) && Plain(PrintPair(p)) && PrintPair(p) != ""
  {
    hide Trim, IsSetCookieAttribute, IsSpace;
    var s := PrintPair(p);
    var n := |p.name|;
    assert s[0] == p.name[0] && s[|s| - 1] == p.value[|p.value| - 1];
    forall j | 0 <= j < n ensures s[j] != '=' && s[j] != ';' && s[j] != '\n' && s[j] != '\r' {
      assert IsNameChar(p.name[j]);
    }
    IndexOfIs(s, '=', n);
  }

  lemma ParsePrintedPair(p: Pair)
    requires WellFormed(p)
    ensures ParseField(PrintPair(p)) == [p]
    ensures ParseField(" " + PrintPair(p)) == [p]
  {
    hide Trim, IsSetCookieAttribute, IsSpace, IndexOf, AllNameChars, PrintPair;
    PrintedPairShape(p);
    SpaceIsSpace();
    TrimSkipsLeadingSpace(' ', PrintPair(p));
    assert " " + PrintPair(p) == [' '] + PrintPair(p);
    assert Trim(p.name) == p.name && p.name != "";
  }

  lemma SpaceIsSpace()
    ensures IsSpace(' ')
  {
  }

  lemma {:induction false} PrintNonEmpty(ps: seq<Pair>)
    requires AllWellFormed(ps)
    ensures |PrintPairs(ps)| == |ps|
    ensures forall i :: 0 <= i < |ps| ==> PrintPairs(ps)[i] == PrintPair(ps[i])
  {
    hide Trim, IsSetCookieAttribute, AllNameChars, PrintPair;
    if ps != [] {
      PrintNonEmpty(ps[..|ps| - 1]);
      assert WellFormed(ps[|ps| - 1]);
    }
  }

  /** The printed header of at least one pair, field by field. */
  lemma {:induction false} JoinShape(ps: seq<Pair>)
    requires AllWellFormed(ps) && ps != []
    ensures ParseFields(Split(Join(ps), ';')) == ps
    ensures PrintPair(ps[0]) <= Join(ps) && Join(ps) != ""
    ensures Trimmed(Join(ps)) && '\n' !in Join(ps) && '\r' !in Join(ps)
  {
    hide PrintPair, ParseField, WellFormed, IsSpace, Split, PrintPairs;
    var init, last := ps[..|ps| - 1], ps[|ps| - 1];
    PrintNonEmpty(ps);
    assert WellFormed(last);
    ParsePrintedPair(last);
    PrintedPairShape(last);
    var field := PrintPair(last);
    if init == [] {
      SplitNone(field, ';');
      assert Join(ps) == field;
      OneField(field);
      assert ps == [last];
    } else {
      JoinShape(init);
      PrintNonEmpty(init);
      var head := Join(init);
      assert PrintPairs(ps)[..|ps| - 1] == PrintPairs(init);
      assert Join(ps) == head + "; " + field;
      assert head + "; " + field == head + [';'] + (" " + field);
      SplitAppend(head, " " + field, ';');
      var fields := Split(head, ';') + [" " + field];
      assert fields[..|fields| - 1] == Split(head, ';');
      var s := Join(ps);
      assert s[0] == head[0] && s[|s| - 1] == field[|field| - 1];
    }
  }

  /** A printed pair is never mistaken for a header label: a name holds no ':'. */
  lemma NoLabel(p: Pair, s: string, prefix: string)
    requires WellFormed(p) && PrintPair(p) <= s
    requires prefix in {"cookie:", "set-cookie:"}
    ensures !HasLabel(s, prefix)
  {
    hide Trim, IsSetCookieAttribute, IsSpace;
    forall k | 0 <= k < |p.name| ensures s[k] != ':' {
      assert IsNameChar(p.name[k]) && s[k] == PrintPair(p)[k];
    }
    assert s[|p.name|] == PrintPair(p)[|p.name|] == '=';
    if |prefix| <= |s| {
      var folded := AsciiLower(s[..|prefix|]);
      assert folded[|prefix| - 1] == ':' ==> s[|prefix| - 1] == ':';
      assert |p.name| < |prefix| ==> folded[|p.name|] == '=';
    }
  }

  /** Parsing a printed list of well-formed pairs returns exactly that list. */
  lemma ParseJoin(ps: seq<Pair>)
    requires AllWellFormed(ps)
    ensures Parse(Join(ps)) == ps
  {
    hide Join, WellFormed, ParseFields, Split;
    var s := Join(ps);
    EmptyText();
    if ps == [] {
      assert s == "" by { JoinNone(); }
    } else {
      JoinShape(ps);
      SplitNone(s, '\n');
      assert WellFormed(ps[0]);
      NoLabel(ps[0], s, "cookie:");
      NoLabel(ps[0], s, "set-cookie:");
      OneLine(s);
    }
  }

  lemma JoinNone()
    ensures Join([]) == ""
  {
  }

  // ---- Merge: last write wins, first-occurrence order ----

  predicate DistinctNames(ps: seq<Pair>) {
    forall i, j :: 0 <= i < j < |ps| ==> ps[i].name != ps[j].name
  }

  /** Write one pair: over the pair of that name if there is one, else at the end. */
  function Upsert(ps: seq<Pair>, p: Pair): (r: seq<Pair>)
    ensures |ps| <= |r| <= |ps| + 1
  {
    if ps == [] then [p]
    else if ps[0].name == p.name then [p] + ps[1..]
    else [ps[0]] + Upsert(ps[1..], p)
  }

  /** The pair as the merge stores it; pairs with a blank name are skipped. */
  function Put(ps: seq<Pair>, p: Pair): seq<Pair> {
    var name := Trim(p.name);
    if name == "" then ps else Upsert(ps, Pair(name, p.value))
  }

  function MergeOver(acc: seq<Pair>, ps: seq<Pair>): seq<Pair>
    decreases |ps|
  {
    if ps == [] then acc else Put(MergeOver(acc, ps[..|ps| - 1]), ps[|ps| - 1])
  }

  function Merge(ps: seq<Pair>): seq<Pair> {
    MergeOver([], ps)
  }

  function Flatten(groups: seq<seq<Pair>>): seq<Pair> {
    if groups == [] then [] else Flatten(groups[..|groups| - 1]) + groups[|groups| - 1]
  }

  /** Where an upsert into a list of distinct names writes. */
  predicate WritesAt(ps: seq<Pair>, name: string, i: nat) {
    && i <= |ps|
    && (i < |ps| ==> ps[i].name == name)
    && (i == |ps| ==> forall k :: 0 <= k < |ps| ==> ps[k].name != name)
  }

  lemma DistinctTail(ps: seq<Pair>)
    requires DistinctNames(ps) && ps != []
    ensures DistinctNames(ps[1..])
    ensures forall k :: 0 < k < |ps| ==> ps[0].name != ps[k].name
  {
  }

  lemma {:induction false} UpsertIs(ps: seq<Pair>, p: Pair, i: nat)
    requires DistinctNames(ps) && WritesAt(ps, p.name, i)
    ensures Upsert(ps, p) == if i < |ps| then ps[i := p] else ps + [p]
  {
    hide DistinctNames;
    if ps != [] && i > 0 {
      var rest := ps[1..];
      DistinctTail(ps);
      UpsertIs(rest, p, i - 1);
      if i < |ps| {
        assert ps[i := p] == [ps[0]] + rest[i - 1 := p];
      } else {
        assert ps + [p] == [ps[0]] + (rest + [p]);
      }
    }
  }

  lemma UpsertAt(ps: seq<Pair>, p: Pair, i: nat)
    requires DistinctNames(ps) && WritesAt(ps, p.name, i)
    ensures Upsert(ps, p) == if i < |ps| then ps[i := p] else ps + [p]
    ensures DistinctNames(Upsert(ps, p))
  {
    hide Upsert;
    UpsertIs(ps, p, i);
  }

  /** `index` maps exactly the names of `ps` to their positions. */
  ghost predicate Indexed(ps: seq<Pair>, index: map<string, nat>) {
    && DistinctNames(ps)
    && (forall i :: 0 <= i < |ps| ==> ps[i].name in index && index[ps[i].name] == i)
    && (forall n :: n in index ==> index[n] < |ps| && ps[index[n]].name == n)
  }

  /** What the index says about writing one more pair. */
  lemma PutIndexed(ps: seq<Pair>, index: map<string, nat>, p: Pair)
    requires Indexed(ps, index)
    ensures var name := Trim(p.name);
      if name == "" then Put(ps, p) == ps
      else if name in index then
        index[name] < |ps| && Put(ps, p) == ps[index[name] := Pair(name, p.value)]
        && Indexed(Put(ps, p), index)
      else
        Put(ps, p) == ps + [Pair(name, p.value)] && Indexed(Put(ps, p), index[name := |ps|])
  {
    hide Trim, Upsert;
    var name := Trim(p.name);
    if name != "" {
      UpsertAt(ps, Pair(name, p.value), if name in index then index[name] else |ps|);
    }
  }

  lemma MergeNext(before: seq<Pair>, group: seq<Pair>, i: nat)
    requires i < |group|
    ensures Merge(before + group[..i + 1]) == Put(Merge(before + group[..i]), group[i])
  {
    hide Put;
    var flat := before + group[..i + 1];
    assert flat[..|flat| - 1] == before + group[..i];
  }

  /** The merge as the program runs it: a slice of pairs and a map from name to position. */
  method MergeCookiePairLists(groups: seq<seq<Pair>>) returns (merged: seq<Pair>)
    ensures merged == Merge(Flatten(groups))
  {
    hide Trim, Put, Indexed, MergeOver;
    merged := [];
    var indexByName: map<string, nat> := map[];
    MergeNothing();
    for g := 0 to |groups|
      invariant merged == Merge(Flatten(groups[..g]))
      invariant Indexed(merged, indexByName)
    {
      assert groups[..g + 1][..g] == groups[..g];
      ghost var before := Flatten(groups[..g]);
      var group := groups[g];
      assert before + group[..0] == before;
      for i := 0 to |group|
        invariant merged == Merge(before + group[..i])
        invariant Indexed(merged, indexByName)
      {
        MergeNext(before, group, i);
        PutIndexed(merged, indexByName, group[i]);
        var pair := group[i];
        var name := Trim(pair.name);
        if name == "" {
          continue;
        }
        pair := Pair(name, pair.value);
        if name in indexByName {
          var idx := indexByName[name];
          merged := merged[idx := pair];
          continue;
        }
        indexByName := indexByName[name := |merged|];
        merged := merged + [pair];
      }
      assert group[..|group|] == group;
    }
    assert groups[..|groups|] == groups;
  }

  lemma MergeNothing()
    ensures Merge([]) == [] && Indexed([], map[])
  {
  }

  // ---- What the merge means ----

  /** The names under which a list writes. */
  function Keys(ps: seq<Pair>): (keys: seq<string>)
    ensures |keys| == |ps| && forall i :: 0 <= i < |ps| ==> keys[i] == Trim(ps[i].name)
  {
    seq(|ps|, i requires 0 <= i < |ps| => Trim(ps[i].name))
  }

  function FirstIndex(keys: seq<string>, key: string): (i: nat)
    ensures i <= |keys|
    ensures i < |keys| ==> keys[i] == key
    ensures forall j :: 0 <= j < i ==> keys[j] != key
  {
    if keys == [] || keys[0] == key then 0 else 1 + FirstIndex(keys[1..], key)
  }

  /** The first pair of that name, or |ps|. */
  function FirstAt(ps: seq<Pair>, name: string): nat {
    FirstIndex(Keys(ps), name)
  }

  /** What was written last under that name. */
  function LastValue(ps: seq<Pair>, name: string): Lookup {
    if ps == [] then Missing
    else if Trim(ps[|ps| - 1].name) == name then Found(ps[|ps| - 1].value)
    else LastValue(ps[..|ps| - 1], name)
  }

  predicate HasName(ps: seq<Pair>, name: string) {
    exists i :: 0 <= i < |ps| && ps[i].name == name
  }

  /** The reference definition: one pair for each non-blank name, in order of first occurrence,
      carrying the value written last. */
  ghost predicate LastWriteWins(ps: seq<Pair>, m: seq<Pair>) {
    && DistinctNames(m)
    && (forall n :: n != "" && LastValue(ps, n).Found? ==> HasName(m, n))
    && (forall i :: 0 <= i < |m| ==> m[i].name != "" && LastValue(ps, m[i].name) == Found(m[i].value))
    && (forall i, j :: 0 <= i < j < |m| ==> FirstAt(ps, m[i].name) < FirstAt(ps, m[j].name))
  }

  lemma {:induction false} FoundIsBefore(ps: seq<Pair>, name: string)
    ensures LastValue(ps, name).Found? <==> FirstAt(ps, name) < |ps|
  {
    hide Trim;
    if ps != [] {
      FoundIsBefore(ps[..|ps| - 1], name);
      FirstAtSnoc(ps, name);
    }
  }

  lemma FirstAtSnoc(ps: seq<Pair>, name: string)
    requires ps != []
    ensures var init := ps[..|ps| - 1];
      FirstAt(ps, name) == if FirstAt(init, name) < |init| then FirstAt(init, name)
                           else if Trim(ps[|ps| - 1].name) == name then |ps| - 1 else |ps|
  {
    hide Trim, FirstIndex;
    var init := ps[..|ps| - 1];
    var i, j := FirstAt(ps, name), FirstAt(init, name);
    assert Keys(init) == Keys(ps)[..|ps| - 1];
  }

  /** One more pair: what becomes of its two views, the last value and the first position. */
  lemma ViewsSnoc(init: seq<Pair>, p: Pair, n: string)
    ensures LastValue(init + [p], n) == if n == Trim(p.name) then Found(p.value) else LastValue(init, n)
    ensures FirstAt(init + [p], n) == if FirstAt(init, n) < |init| then FirstAt(init, n)
                                      else if n == Trim(p.name) then |init| else |init| + 1
    ensures LastValue(init, n).Found? <==> FirstAt(init, n) < |init|
  {
    hide Trim, FirstAt, LastValue;
    assert (init + [p])[..|init|] == init;
    LastValueSnoc(init, p, n);
    FirstAtSnoc(init + [p], n);
    FoundIsBefore(init, n);
  }

  /** Writing one more pair keeps the reference description. */
  lemma PutKeepsLastWriteWins(init: seq<Pair>, p: Pair, m: seq<Pair>)
    requires LastWriteWins(init, m)
    ensures LastWriteWins(init + [p], Put(m, p))
  {
    hide Trim, Upsert, FirstAt, LastValue, DistinctNames, HasName;
    var ps, name, m' := init + [p], Trim(p.name), Put(m, p);
    var i := |m|;
    if name != "" {
      i := WriteIndex(m, name);
      UpsertAt(m, Pair(name, p.value), i);
    }
    forall n | n != "" && LastValue(ps, n).Found? ensures HasName(m', n) {
      ViewsSnoc(init, p, n);
      UpsertHasName(m, Pair(name, p.value), n);
    }
    forall j | 0 <= j < |m'| ensures m'[j].name != "" && LastValue(ps, m'[j].name) == Found(m'[j].value) {
      ViewsSnoc(init, p, m'[j].name);
      DistinctFromOthers(m', i, j);
    }
    forall j, k | 0 <= j < k < |m'| ensures FirstAt(ps, m'[j].name) < FirstAt(ps, m'[k].name) {
      ViewsSnoc(init, p, m'[j].name);
      ViewsSnoc(init, p, m'[k].name);
    }
  }

  lemma WriteIndex(m: seq<Pair>, name: string) returns (i: nat)
    ensures WritesAt(m, name, i) && (i < |m| <==> HasName(m, name))
  {
    if HasName(m, name) {
      i :| 0 <= i < |m| && m[i].name == name;
    } else {
      i := |m|;
    }
  }

  lemma DistinctFromOthers(m: seq<Pair>, i: nat, j: nat)
    requires DistinctNames(m) && j < |m|
    ensures i < |m| && i != j ==> m[i].name != m[j].name
  {
    assert i < j || i == j || j < i;
  }

  lemma LastValueSnoc(init: seq<Pair>, p: Pair, name: string)
    ensures LastValue(init + [p], name)
         == if Trim(p.name) == name then Found(p.value) else LastValue(init, name)
  {
    hide Trim;
    assert (init + [p])[..|init|] == init;
  }

  lemma {:induction false} MergeIsLastWriteWins(ps: seq<Pair>)
    ensures LastWriteWins(ps, Merge(ps))
  {
    hide LastWriteWins, Put;
    if ps == [] {
      NothingWins();
    } else {
      MergeIsLastWriteWins(ps[..|ps| - 1]);
      PutKeepsLastWriteWins(ps[..|ps| - 1], ps[|ps| - 1], Merge(ps[..|ps| - 1]));
      assert ps == ps[..|ps| - 1] + [ps[|ps| - 1]];
    }
  }

  lemma NothingWins()
    ensures LastWriteWins([], [])
  {
  }

  /** The reference pins the list down: at most one list satisfies it. */
  lemma LastWriteWinsIsUnique(ps: seq<Pair>, a: seq<Pair>, b: seq<Pair>)
    requires LastWriteWins(ps, a) && LastWriteWins(ps, b)
    ensures a == b
  {
    hide Trim, FirstAt, LastValue;
    AgreeUpTo(ps, a, b, |a|);
    AgreeUpTo(ps, b, a, |b|);
  }

  lemma SamePairIn(ps: seq<Pair>, a: seq<Pair>, b: seq<Pair>, k: nat) returns (j: nat)
    requires LastWriteWins(ps, a) && LastWriteWins(ps, b) && k < |a|
    ensures j < |b| && b[j] == a[k]
  {
    hide FirstAt, LastValue;
    assert HasName(b, a[k].name);
    j :| j < |b| && b[j].name == a[k].name;
  }

  lemma InOrder(ps: seq<Pair>, m: seq<Pair>, i: nat, j: nat)
    requires LastWriteWins(ps, m) && i < |m| && j < |m|
    ensures i < j <==> FirstAt(ps, m[i].name) < FirstAt(ps, m[j].name)
  {
    hide FirstAt, LastValue, HasName;
    assert i < j || i == j || j < i;
  }

  lemma {:induction false} AgreeUpTo(ps: seq<Pair>, a: seq<Pair>, b: seq<Pair>, n: nat)
    requires LastWriteWins(ps, a) && LastWriteWins(ps, b)
    requires n <= |a|
    ensures n <= |b| && forall i :: 0 <= i < n ==> a[i] == b[i]
  {
    hide LastWriteWins, FirstAt;
    if n > 0 {
      var k := n - 1;
      AgreeUpTo(ps, a, b, k);
      var j := SamePairIn(ps, a, b, k);
      if j < k {
        InOrder(ps, a, j, k);
        assert false;
      }
      if j > k {
        var j' := SamePairIn(ps, b, a, k);
        InOrder(ps, b, k, j);
        InOrder(ps, a, j', k);
        InOrder(ps, a, k, j');
        if j' < k {
          InOrder(ps, b, j', k);
        }
        assert false;
      }
    }
  }

  // ---- Algebra of the merge ----

  predicate Clean(ps: seq<Pair>) {
    DistinctNames(ps) && forall i :: 0 <= i < |ps| ==> ps[i].name != "" && Trimmed(ps[i].name)
  }

  lemma {:induction false} MergeClean(ps: seq<Pair>)
    ensures Clean(Merge(ps))
  {
    hide Trim, Trimmed, Upsert;
    if ps != [] {
      var m, p := Merge(ps[..|ps| - 1]), ps[|ps| - 1];
      MergeClean(ps[..|ps| - 1]);
      var name := Trim(p.name);
      if name != "" {
        var i := WriteIndex(m, name);
        UpsertAt(m, Pair(name, p.value), i);
      }
    }
  }

  /** A clean list is already merged. */
  lemma {:induction false} MergeOfClean(ps: seq<Pair>)
    requires Clean(ps)
    ensures Merge(ps) == ps
  {
    hide Trim, Upsert;
    if ps != [] {
      var init, p := ps[..|ps| - 1], ps[|ps| - 1];
      MergeOfClean(init);
      assert Trim(p.name) == p.name;
      UpsertAt(init, p, |init|);
    }
  }

  lemma {:induction false} MergeAppend(acc: seq<Pair>, a: seq<Pair>, b: seq<Pair>)
    ensures MergeOver(acc, a + b) == MergeOver(MergeOver(acc, a), b)
  {
    hide Put;
    if b == [] {
      assert a + b == a;
    } else {
      MergeAppend(acc, a, b[..|b| - 1]);
      assert (a + b)[..|a + b| - 1] == a + b[..|b| - 1];
    }
  }

  lemma {:induction false} UpsertTwice(ps: seq<Pair>, p: Pair, q: Pair)
    requires p.name == q.name
    ensures Upsert(Upsert(ps, p), q) == Upsert(ps, q)
  {
    if ps != [] && ps[0].name != p.name {
      UpsertTwice(ps[1..], p, q);
    }
  }

  lemma {:induction false} UpsertSwap(ps: seq<Pair>, p: Pair, q: Pair)
    requires p.name != q.name && HasName(ps, p.name)
    ensures Upsert(Upsert(ps, p), q) == Upsert(Upsert(ps, q), p)
  {
    if ps[0].name != p.name && ps[0].name != q.name {
      var i :| 0 <= i < |ps| && ps[i].name == p.name;
      assert ps[1..][i - 1].name == p.name;
      UpsertSwap(ps[1..], p, q);
    } else if ps[0].name == q.name {
      var i :| 0 <= i < |ps| && ps[i].name == p.name;
    }
  }

  lemma {:induction false} UpsertHasName(ps: seq<Pair>, p: Pair, name: string)
    ensures HasName(Upsert(ps, p), name) <==> name == p.name || HasName(ps, name)
  {
    var r := Upsert(ps, p);
    if ps == [] {
      assert r[0].name == p.name;
    } else {
      var rest := ps[1..];
      assert forall i :: 0 < i < |ps| ==> ps[i] == rest[i - 1];
      assert forall i :: 0 <= i < |rest| ==> rest[i] == ps[i + 1];
      if ps[0].name == p.name {
        assert r[0].name == p.name;
        assert forall i :: 0 < i < |ps| ==> r[i] == ps[i];
      } else {
        UpsertHasName(rest, p, name);
        var r' := Upsert(rest, p);
        assert forall i :: 0 <= i < |r'| ==> r'[i] == r[i + 1];
        assert forall i :: 0 < i < |r| ==> r[i] == r'[i - 1];
        assert r[0] == ps[0];
      }
    }
  }

  lemma {:induction false} MergeOverHasName(acc: seq<Pair>, ps: seq<Pair>, i: nat)
    requires Clean(ps) && i < |ps|
    ensures HasName(MergeOver(acc, ps), ps[i].name)
  {
    hide Trim, Upsert, HasName;
    var init, p := ps[..|ps| - 1], ps[|ps| - 1];
    assert Trim(p.name) == p.name;
    UpsertHasName(MergeOver(acc, init), p, ps[i].name);
    if i < |init| {
      MergeOverHasName(acc, init, i);
    }
  }

  /** Overwriting a pair before merging it in is merging it in and then overwriting. */
  lemma {:induction false} OverwriteLater(acc: seq<Pair>, m: seq<Pair>, i: nat, q: Pair)
    requires Clean(m) && i < |m| && m[i].name == q.name
    ensures MergeOver(acc, m[i := q]) == Upsert(MergeOver(acc, m), q)
  {
    hide Trim, Upsert;
    var init, r := m[..|m| - 1], m[|m| - 1];
    assert Trim(r.name) == r.name && Trim(q.name) == q.name;
    var base := MergeOver(acc, init);
    if i == |init| {
      assert m[i := q][..|m| - 1] == init;
      UpsertTwice(base, r, q);
    } else {
      assert m[i := q][..|m| - 1] == init[i := q];
      OverwriteLater(acc, init, i, q);
      MergeOverHasName(acc, init, i);
      UpsertSwap(base, q, r);
    }
  }

  lemma {:induction false} MergeOverMerged(acc: seq<Pair>, b: seq<Pair>)
    ensures MergeOver(acc, Merge(b)) == MergeOver(acc, b)
  {
    hide Trim, Upsert;
    if b != [] {
      var init, p := b[..|b| - 1], b[|b| - 1];
      var m, name := Merge(init), Trim(p.name);
      MergeOverMerged(acc, init);
      MergeClean(init);
      if name != "" {
        var q := Pair(name, p.value);
        if HasName(m, name) {
          var i :| 0 <= i < |m| && m[i].name == name;
          UpsertAt(m, q, i);
          OverwriteLater(acc, m, i, q);
        } else {
          UpsertAt(m, q, |m|);
          assert (m + [q])[..|m|] == m;
        }
      }
    }
  }

  /** Merging is associative and absorbs lists that are already merged. */
  lemma MergeAssociative(a: seq<Pair>, b: seq<Pair>, c: seq<Pair>)
    ensures Merge(Merge(a + b) + c) == Merge(a + b + c) == Merge(a + Merge(b + c))
  {
    hide MergeOver;
    MergeClean(a + b);
    MergeOfClean(Merge(a + b));
    MergeAppend([], Merge(a + b), c);
    MergeAppend([], a + b, c);
    assert a + b + c == a + (b + c);
    MergeAppend([], a, b + c);
    MergeAppend([], a, Merge(b + c));
    MergeOverMerged(Merge(a), b + c);
  }

  // ---- Headers ----

  function NormalizeHeader(raw: string): string {
    Join(Merge(Parse(raw)))
  }

  function MergeHeaders(existing: string, next: string): string {
    Join(Merge(Parse(existing) + Parse(next)))
  }

  function UpsertCookie(header: string, name: string, value: string): string {
    Join(Merge(Parse(header) + [Pair(name, value)]))
  }

  lemma {:induction false} MergeWellFormed(ps: seq<Pair>)
    requires AllWellFormed(ps)
    ensures AllWellFormed(Merge(ps))
  {
    hide Trim, Upsert, IsLikelyCookieName, IsSetCookieAttribute, IsPadding, Plain;
    if ps != [] {
      var m, p := Merge(ps[..|ps| - 1]), ps[|ps| - 1];
      MergeWellFormed(ps[..|ps| - 1]);
      MergeClean(ps[..|ps| - 1]);
      assert WellFormed(p) && Trim(p.name) == p.name;
      if p.name != "" {
        var i := WriteIndex(m, p.name);
        UpsertAt(m, p, i);
        forall q | q in Upsert(m, p) ensures WellFormed(q) {
          assert q == p || q in m;
        }
      }
    }
  }

  /** What any header this program prints from parsed text parses back to. */
  lemma ParseMerged(ps: seq<Pair>)
    requires AllWellFormed(ps)
    ensures Parse(Join(Merge(ps))) == Merge(ps)
  {
    MergeWellFormed(ps);
    ParseJoin(Merge(ps));
  }

  /** normalizeCookieHeader is idempotent on every string. */
  lemma NormalizeIdempotent(raw: string)
    ensures NormalizeHeader(NormalizeHeader(raw)) == NormalizeHeader(raw)
  {
    hide Join, Parse, Merge;
    ParseWellFormed(raw);
    ParseMerged(Parse(raw));
    MergeClean(Parse(raw));
    MergeOfClean(Merge(Parse(raw)));
  }

  /** mergeCookieHeaders is associative on all strings, and ignores normalization. */
  lemma MergeHeadersAssociative(a: string, b: string, c: string)
    ensures MergeHeaders(MergeHeaders(a, b), c) == MergeHeaders(a, MergeHeaders(b, c))
    ensures MergeHeaders(NormalizeHeader(a), b) == MergeHeaders(a, b) == MergeHeaders(a, NormalizeHeader(b))
  {
    hide Join, Parse, Merge, WellFormed;
    var x, y, z := Parse(a), Parse(b), Parse(c);
    ParseWellFormed(a);
    ParseWellFormed(b);
    ParseWellFormed(c);
    ParseMerged(x + y);
    ParseMerged(y + z);
    ParseMerged(x);
    ParseMerged(y);
    MergeAssociative(x, y, z);
    MergeAssociative(x, [], y);
    MergeAssociative(x, y, []);
    assert x + [] == x && y + [] == y && [] + y == y && x + y + [] == x + y;
  }

  // ---- Set-Cookie values folded into a header ----

  /** The name and value of one raw Set-Cookie line; nothing is validated. */
  function SetCookiePair(raw: string): (ps: seq<Pair>)
    ensures |ps| <= 1
  {
    var first := Trim(Split(StripLabel(raw), ';')[0]);
    var eq := IndexOf(first, '=');
    if eq == 0 || eq == |first| then [] else [Pair(Trim(first[..eq]), first[eq + 1..])]
  }

  function MergeSetCookies(header: string, setCookies: seq<string>): string {
    if setCookies == [] then NormalizeHeader(header)
    else
      var before := MergeSetCookies(header, setCookies[..|setCookies| - 1]);
      var ps := SetCookiePair(setCookies[|setCookies| - 1]);
      if ps == [] then before else UpsertCookie(before, ps[0].name, ps[0].value)
  }

  method MergeSetCookiePairs(cookieHeader: string, setCookies: seq<string>) returns (merged: string)
    ensures merged == MergeSetCookies(cookieHeader, setCookies)
  {
    hide NormalizeHeader, UpsertCookie, Trim, StripLabel, Split, IndexOf;
    merged := NormalizeHeader(cookieHeader);
    for i := 0 to |setCookies|
      invariant merged == MergeSetCookies(cookieHeader, setCookies[..i])
    {
      assert setCookies[..i + 1][..i] == setCookies[..i];
      var raw := setCookies[i];
      EmptySetCookie();
      if raw == "" {
        continue;
      }
      var firstPair := Trim(Split(StripLabel(raw), ';')[0]);
      if firstPair == "" {
        continue;
      }
      var eq := IndexOf(firstPair, '=');
      if eq == 0 || eq == |firstPair| {
        continue;
      }
      var name := Trim(firstPair[..eq]);
      var value := firstPair[eq + 1..];
      merged := UpsertCookie(merged, name, value);
    }
    assert setCookies[..|setCookies|] == setCookies;
  }

  lemma EmptySetCookie()
    ensures SetCookiePair("") == [] && IndexOf("", '=') == 0
  {
    hide Trim;
    SplitNone("", ';');
    assert StripLabel("") == "" by {
      EmptyText();
      assert Trimmed("");
    }
  }

  // ---- Reading one cookie ----

  function FirstValue(ps: seq<Pair>, name: string): Lookup {
    if ps == [] then Missing
    else if EqualFold(ps[0].name, name) then Found(ps[0].value)
    else FirstValue(ps[1..], name)
  }

  function CookieValueFromHeader(raw: string, name: string): Lookup {
    if Trim(name) == "" then Missing else FirstValue(Parse(raw), Trim(name))
  }
}
