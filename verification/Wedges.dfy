/**
 * What reading makes of a member put, in front of a line break, anywhere into the text of a
 * well-formed tree: it is taken into a comment, or becomes a member where it stands, or the text
 * does not parse.
 */
module Wedges {
  import opened Units
  import opened Trivia
  import Strings
  import opened Scalars
  import opened Json
  import opened Values
  import opened Syntax
  import opened Editor
  import opened TreeEdits
  import opened Layout
  import opened Inserts
  import Strays

  // ----- The text put in -----

  /** A written member, the line break and indentation before it, and perhaps a comma after it. */
  datatype Wedge = Wedge(lead: Text, key: Text, value: Tree, comma: bool)

  function MemberOf(x: Wedge): Text {
    WrittenMember(x.key, Show(x.value))
  }

  function EndOf(x: Wedge): Text {
    if x.comma then [COMMA] else []
  }

  function TextOf(x: Wedge): Text {
    x.lead + (MemberOf(x) + EndOf(x))
  }

  predicate IsWedge(x: Wedge) {
    IsBlanks(x.lead) && StartsBreak(x.lead) && Formed(x.value) && CloseFrom(TextOf(x), 0) == None
  }

  function Put(s: Text, k: nat, t: Text): Text
    requires k <= |s|
  {
    s[..k] + t + s[k..]
  }

  predicate Breaks(s: Text, k: nat) {
    k < |s| && StartsBreak(s[k..])
  }

  predicate IsToken(s: Text) {
    s != [] && s[0] != SLASH && !IsBlank(s[0])
  }

  lemma PutFront(a: Text, b: Text, k: nat, t: Text)
    requires k <= |a|
    ensures Put(a + b, k, t) == Put(a, k, t) + b
  {
    assert (a + b)[..k] == a[..k];
    assert (a + b)[k..] == a[k..] + b;
  }

  lemma PutBack(a: Text, b: Text, k: nat, t: Text)
    requires |a| <= k <= |a| + |b|
    ensures Put(a + b, k, t) == a + Put(b, k - |a|, t)
  {
    assert (a + b)[..k] == a + b[..k - |a|];
    assert (a + b)[k..] == b[k - |a|..];
  }

  lemma BreaksFront(a: Text, b: Text, k: nat)
    requires Breaks(a + b, k) && k < |a| && IsToken(b)
    ensures Breaks(a, k)
  {
    var s := a + b;
    assert s[k..][0] == s[k] == a[k];
    if k + 1 < |s| {
      assert s[k..][1] == s[k + 1];
    }
  }

  lemma BreaksBack(a: Text, b: Text, k: nat)
    requires Breaks(a + b, k) && k >= |a|
    ensures Breaks(b, k - |a|)
  {
    assert (a + b)[k..] == b[k - |a|..];
  }

  lemma BreakAt(s: Text, k: nat)
    requires Breaks(s, k)
    ensures s[k] == LF || s[k] == CR
  {
    assert s[k..][0] == s[k];
  }

  // ----- In trivia -----

  /** What follows the place of the member, the member included. */
  function Rest(x: Wedge, gap: Text, r: Text): Text {
    MemberOf(x) + (EndOf(x) + (gap + r))
  }

  lemma WedgeBegins(x: Wedge)
    requires IsWedge(x)
    ensures TextOf(x) != [] && (TextOf(x)[0] == LF || TextOf(x)[0] == CR) && LF in x.lead && x.lead != []
    ensures MemberOf(x) != [] && MemberOf(x)[0] == QUOTE
  {
    hide Show, Strings.Escape, Formed, CloseFrom;
    assert x.lead[0] in x.lead;
    assert StartsWith2(x.lead, CR, LF) ==> x.lead[1] in x.lead;
  }

  /** In trivia the member is taken into a comment, or it divides the trivia into whole trivia and what follows it. */
  lemma GapPut(gap: Text, k: nat, x: Wedge, r: Text) returns (inside: bool)
    requires IsGap(gap) && IsToken(r) && k < |gap| && Breaks(gap + r, k) && IsWedge(x)
    ensures inside ==> IsGap(Put(gap, k, TextOf(x))) && Put(gap + r, k, TextOf(x)) == Put(gap, k, TextOf(x)) + r
    ensures !inside ==> IsGap(gap[..k] + x.lead) && IsGap(gap[k..])
    ensures !inside ==> Put(gap + r, k, TextOf(x)) == gap[..k] + x.lead + Rest(x, gap[k..], r)
  {
    hide IsGap, Skip, CloseFrom, MemberOf, EndOf, IsBlanks, Formed;
    BreaksFront(gap, r, k);
    BreakAt(gap, k);
    Strays.CutInGap(gap, k);
    PutFront(gap, r, k, TextOf(x));
    WedgeBegins(x);
    inside := Skip(gap[..k]) == None;
    if inside {
      assert gap == gap[..k] + gap[k..];
      Strays.CommentTakesIn(gap[..k], TextOf(x), gap[k..]);
    } else {
      LineBreakCloses(gap[..k], x.lead);
      CutBeforeBreak(gap, k);
      DividedText(gap[..k], x, gap[k..], r);
    }
  }

  lemma DividedText(a: Text, x: Wedge, b: Text, r: Text)
    ensures a + TextOf(x) + b + r == a + x.lead + Rest(x, b, r)
  {
    hide MemberOf, EndOf;
    var m, e := MemberOf(x), EndOf(x);
    Assoc(a, x.lead, m + e);
    Assoc(a + x.lead, m + e, b);
    Assoc(a + x.lead, m + e + b, r);
    Assoc(m, e, b);
    Assoc(m, e + b, r);
    Assoc(e, b, r);
  }

  /** Whole trivia, and then a token. */
  lemma SkipsTo(gap: Text, r: Text)
    requires IsGap(gap) && IsToken(r)
    ensures Skip(gap + r) == Some(|gap|) && (gap + r)[|gap|..] == r && (gap + r)[..|gap|] == gap
  {
    hide IsGap, Skip;
    SkipOver(gap, r);
    SkipTokenAt(r);
  }

  lemma RestBegins(x: Wedge, gap: Text, r: Text)
    requires IsWedge(x)
    ensures Rest(x, gap, r) != [] && Rest(x, gap, r)[0] == QUOTE && IsToken(Rest(x, gap, r))
  {
    hide MemberOf, EndOf, IsWedge;
    WedgeBegins(x);
  }

  // ----- After a value -----

  /** A value is not followed by a token that neither separates nor closes. */
  lemma NoTail(braces: bool, gap: Text, r: Text)
    requires IsGap(gap) && IsToken(r) && r[0] != COMMA && r[0] != Closer(braces)
    ensures ReadTail(braces, gap + r) == None
  {
    hide IsGap, Skip;
    SkipsTo(gap, r);
  }

  /** What reading the tail of an element makes of a member put into it. */
  lemma TailPut(braces: bool, tail: Tail, r: Text, k: nat, x: Wedge) returns (divided: bool)
    requires FormedTail(tail) && IsToken(r) && (tail.Plain? ==> r[0] == Closer(braces)) && IsWedge(x)
    requires k < |ShowTail(tail)| && Breaks(ShowTail(tail) + r, k)
    ensures var s := Put(ShowTail(tail) + r, k, TextOf(x));
      var read := ReadTail(braces, s);
      read.Some? ==>
        && read.value.len <= |s|
        && if divided then
             && tail.Comma? && |tail.before| < k && k - |tail.before| - 1 <= |tail.after|
             && var gap := tail.after[k - |tail.before| - 1..];
             && IsGap(gap) && read.value.len == k + |x.lead| && s[read.value.len..] == Rest(x, gap, r)
           else read.value.len == |ShowTail(tail)| + |TextOf(x)| && s[read.value.len..] == r
  {
    hide IsGap, Skip, Rest, TextOf, ReadTail;
    var before := tail.before;
    if tail.Plain? {
      divided := PlainPut(braces, before, r, k, x);
    } else {
      var t := [COMMA] + tail.after + r;
      assert ShowTail(tail) + r == before + t;
      if k < |before| {
        CommaToken(tail.after + r);
        assert t == [COMMA] + (tail.after + r);
        BeforePut(braces, tail, r, k, x);
        divided := false;
      } else {
        divided := AfterPut(braces, tail, r, k, x);
      }
    }
  }

  lemma CommaToken(s: Text)
    ensures IsToken([COMMA] + s)
  {
  }

  lemma PlainPut(braces: bool, before: Text, r: Text, k: nat, x: Wedge) returns (divided: bool)
    requires IsGap(before) && IsToken(r) && r[0] == Closer(braces) && IsWedge(x) && k < |before| && Breaks(before + r, k)
    ensures !divided
    ensures var s := Put(before + r, k, TextOf(x));
      var read := ReadTail(braces, s);
      read.Some? ==> read.value.len == |before| + |TextOf(x)| && read.value.len <= |s| && s[read.value.len..] == r
  {
    hide IsGap, Skip, Rest, TextOf, ReadTail;
    divided := false;
    var inside := GapPut(before, k, x, r);
    if inside {
      var gap := Put(before, k, TextOf(x));
      SkipsTo(gap, r);
      PlainStep(braces, gap + r, |gap|);
    } else {
      RestBegins(x, before[k..], r);
      NoTail(braces, before[..k] + x.lead, Rest(x, before[k..], r));
    }
  }

  lemma BeforePut(braces: bool, tail: Tail, r: Text, k: nat, x: Wedge)
    requires FormedTail(tail) && tail.Comma? && IsToken(r) && IsWedge(x) && k < |tail.before| && Breaks(ShowTail(tail) + r, k)
    ensures var s := Put(ShowTail(tail) + r, k, TextOf(x));
      var read := ReadTail(braces, s);
      read.Some? ==> read.value.len == |ShowTail(tail)| + |TextOf(x)| && read.value.len <= |s| && s[read.value.len..] == r
  {
    hide IsGap, Skip, Rest, TextOf, ReadTail, IsWedge;
    var before, t := tail.before, [COMMA] + (tail.after + r);
    assert ShowTail(tail) + r == before + t;
    CommaToken(tail.after + r);
    var inside := GapPut(before, k, x, t);
    if inside {
      var gap := Put(before, k, TextOf(x));
      CommaTail(braces, gap, tail.after, r);
    } else {
      RestBegins(x, before[k..], t);
      NoTail(braces, before[..k] + x.lead, Rest(x, before[k..], t));
    }
  }

  /** A comma between trivia, and then a token. */
  lemma CommaTail(braces: bool, before: Text, after: Text, r: Text)
    requires IsGap(before) && IsGap(after) && IsToken(r)
    ensures var s := before + ([COMMA] + (after + r)); var n := |before| + 1 + |after|;
      ReadTail(braces, s) == Some(Read(Comma(before, after), n)) && s[n..] == r
  {
    hide IsGap, Skip, ReadTail;
    var t := [COMMA] + (after + r);
    CommaToken(after + r);
    SkipsTo(before, t);
    SkipsTo(after, r);
    assert (before + t)[|before| + 1..] == after + r;
    CommaStep(braces, before + t, |before|, |after|);
  }

  lemma AfterPut(braces: bool, tail: Tail, r: Text, k: nat, x: Wedge) returns (divided: bool)
    requires FormedTail(tail) && tail.Comma? && IsToken(r) && IsWedge(x)
    requires |tail.before| <= k < |ShowTail(tail)| && Breaks(ShowTail(tail) + r, k)
    ensures |tail.before| < k
    ensures var s := Put(ShowTail(tail) + r, k, TextOf(x));
      var read := ReadTail(braces, s);
      var gap := tail.after[k - |tail.before| - 1..];
      && read.Some? && read.value.len <= |s|
      && if divided then IsGap(gap) && read.value.len == k + |x.lead| && s[read.value.len..] == Rest(x, gap, r)
         else read.value.len == |ShowTail(tail)| + |TextOf(x)| && s[read.value.len..] == r
  {
    hide IsGap, Skip, Rest, TextOf, ReadTail, IsWedge;
    var before, after := tail.before, tail.after;
    var whole := ShowTail(tail) + r;
    assert whole == (before + [COMMA]) + (after + r);
    BreakAt(whole, k);
    assert whole[|before|] == COMMA;
    var j := k - |before| - 1;
    BreaksBack(before + [COMMA], after + r, k);
    PutBack(before + [COMMA], after + r, k, TextOf(x));
    var inside := GapPut(after, j, x, r);
    divided := !inside;
    if inside {
      Assoc(before, [COMMA], Put(after, j, TextOf(x)) + r);
      CommaTail(braces, before, Put(after, j, TextOf(x)), r);
    } else {
      RestBegins(x, after[j..], r);
      Assoc(before, [COMMA], after[..j] + x.lead + Rest(x, after[j..], r));
      CommaTail(braces, before, after[..j] + x.lead, Rest(x, after[j..], r));
    }
  }

  // ----- In front of elements -----

  /** The value of the last member a key names. */
  function LastOf(es: Elems, key: Text): Option<Value> {
    match es
    case End => None
    case More(elem, rest) =>
      if LastOf(rest, key).Some? then LastOf(rest, key)
      else if KeyOf(elem.lead) == key then Some(ValueOf(elem.value)) else None
  }

  lemma {:induction false} LastIsField(es: Elems, so_far: Fields, key: Text)
    ensures LastOf(es, key).Some? ==> key in FieldsOf(es, so_far) && FieldsOf(es, so_far)[key] == LastOf(es, key).value
    ensures LastOf(es, key).None? ==> (key in FieldsOf(es, so_far) <==> key in so_far)
    ensures LastOf(es, key).None? && key in so_far ==> FieldsOf(es, so_far)[key] == so_far[key]
  {
    hide KeyOf, ValueOf;
    if es.More? {
      LastIsField(es.rest, so_far[KeyOf(es.elem.lead) := ValueOf(es.elem.value)], key);
    }
  }

  /** Of a key that named nothing: it names nothing, or the member that was put in. */
  predicate OnlyWedge(es: Elems, key: Text, x: Wedge) {
    LastOf(es, key).None? || LastOf(es, key) == Some(ValueOf(x.value))
  }

  /** The elements that begin with the member: in an array they do not parse, in an object it is their first. */
  lemma MemberReads(braces: bool, es: Elems, gap: Text, z: Text, x: Wedge, key: Text)
    requires FormedElems(braces, es) && IsGap(gap) && IsWedge(x)
    ensures var r := ReadElems(braces, Rest(x, gap, ShowElems(braces, es) + z));
      r.Some? ==>
        && r.value.len == |MemberOf(x)| + |EndOf(x)| + |gap| + |ShowElems(braces, es)|
        && (braces && LastOf(es, key).None? ==> OnlyWedge(r.value.it, key, x))
  {
    hide IsGap, FormedElems, ShowElems, ReadElems, Rest, ReadElem, KeyOf, ValueOf;
    ElemsBegin(braces, es);
    var after := ShowElems(braces, es) + z;
    assert after[0] == ShowElems(braces, es)[0];
    RestBegins(x, gap, after);
    if !braces {
      NoItem(gap, after, x);
      NoElems(braces, Rest(x, gap, after));
    } else if !x.comma && es.More? {
      NoSeparator(gap, after, x);
      NoElems(braces, Rest(x, gap, after));
    } else {
      MemberFirst(es, gap, z, x, key);
    }
  }

  lemma NoElems(braces: bool, s: Text)
    requires s != [] && s[0] == QUOTE && ReadElem(braces, s) == None
    ensures ReadElems(braces, s) == None
  {
    hide ReadElem;
  }

  lemma WedgeElem(x: Wedge, tail: Tail)
    requires IsWedge(x) && FormedTail(tail)
    ensures var e := WrittenElem(x.key, x.value, tail);
      FormedElem(true, e) && KeyOf(e.lead) == x.key && ShowElem(e) == MemberOf(x) + ShowTail(tail) && e.value == x.value && e.tail == tail
  {
    hide Formed, FormedTail, Show, ShowTail, FormedElem, KeyOf, ShowElem;
    WrittenIsElem(x.key, x.value, tail);
  }

  lemma MemberFirst(es: Elems, gap: Text, z: Text, x: Wedge, key: Text)
    requires FormedElems(true, es) && IsGap(gap) && IsWedge(x) && (x.comma || es.End?)
    ensures var r := ReadElems(true, Rest(x, gap, ShowElems(true, es) + z));
      && r.Some?
      && r.value.len == |MemberOf(x)| + |EndOf(x)| + |gap| + |ShowElems(true, es)|
      && (LastOf(es, key).None? ==> OnlyWedge(r.value.it, key, x))
  {
    hide IsGap, FormedElems, ReadElem, KeyOf, ValueOf, MemberOf, FormedElem, ShowElem, Formed, IsWedge, WrittenElem, ReadElems, ShowElems;
    var after := ShowElems(true, es) + z;
    var tail := if x.comma then Comma([], gap) else Plain(gap);
    var e := WrittenElem(x.key, x.value, tail);
    assert IsGap([]) by { BlanksAreGap([]); }
    WedgeElem(x, tail);
    WedgeBegins(x);
    ElemsBegin(true, es);
    assert after[0] == ShowElems(true, es)[0];
    assert Rest(x, gap, after) == ShowElem(e) + after by { FirstText(x, gap, after, tail); }
    EndShown();
    ElemReads(true, e, after);
    ElemsRead(true, es, z);
    Halves(ShowElem(e), after);
    assert ReadElems(true, ShowElem(e) + after) == Some(Read(More(e, es), |ShowElem(e)| + |ShowElems(true, es)|)) by {
      ElemsStep(true, ShowElem(e) + after, e, |ShowElem(e)|, es, |ShowElems(true, es)|);
    }
    assert |ShowTail(tail)| == |EndOf(x)| + |gap|;
  }

  lemma EndShown()
    ensures ShowElems(true, End) == [RBRACE]
  {
  }

  lemma FirstText(x: Wedge, gap: Text, after: Text, tail: Tail)
    requires tail == if x.comma then Comma([], gap) else Plain(gap)
    ensures Rest(x, gap, after) == MemberOf(x) + ShowTail(tail) + after
  {
    hide MemberOf;
    var m := MemberOf(x);
    assert ShowTail(tail) == EndOf(x) + gap;
    Assoc(m, EndOf(x) + gap, after);
    Assoc(EndOf(x), gap, after);
  }

  lemma ElemsStep(braces: bool, s: Text, elem: Elem, n: nat, rest: Elems, m: nat)
    requires s != [] && s[0] != Closer(braces) && ReadElem(braces, s) == Some(Read(elem, n)) && n <= |s|
    requires ReadElems(braces, s[n..]) == Some(Read(rest, m))
    ensures ReadElems(braces, s) == Some(Read(More(elem, rest), n + m))
  {
    hide ReadElem;
  }

  /** Without a comma another member must not follow. */
  lemma NoSeparator(gap: Text, after: Text, x: Wedge)
    requires IsGap(gap) && IsWedge(x) && !x.comma && IsToken(after) && after[0] == QUOTE
    ensures Rest(x, gap, after) != [] && ReadElem(true, Rest(x, gap, after)) == None
  {
    hide IsGap, Formed, Strings.Quote, ReadLead, ReadTree, ReadTail, Show, FormedLead, ShowLead;
    var lead := Keyed(Strings.Quote(x.key), [], [SPACE]);
    var t := gap + after;
    KeyIsPrinted(x.key, [SPACE]);
    assert lead == Keyed(Strings.Quote(x.key), [], Pad([SPACE]));
    WrittenLead(x, gap, after);
    GapEndsNumber(gap, after);
    TreeReads(x.value, t);
    TreeBegins(x.value);
    TokenStarts(Show(x.value) + t);
    LeadReads(true, lead, Show(x.value) + t);
    NoTail(true, gap, after);
    var s := ShowLead(lead) + (Show(x.value) + t);
    assert s[|ShowLead(lead)|..] == Show(x.value) + t;
    assert (Show(x.value) + t)[|Show(x.value)|..] == t;
  }

  lemma WrittenLead(x: Wedge, gap: Text, after: Text)
    requires !x.comma
    ensures Rest(x, gap, after) == ShowLead(Keyed(Strings.Quote(x.key), [], [SPACE])) + (Show(x.value) + (gap + after))
  {
    hide Show, Strings.Quote;
    var lead := Strings.Quote(x.key) + [COLON, SPACE];
    assert Strings.Quote(x.key) + [] + [COLON] + [SPACE] == lead;
    assert EndOf(x) + (gap + after) == gap + after;
    Assoc(lead, Show(x.value), gap + after);
  }

  lemma GapEndsNumber(gap: Text, r: Text)
    requires IsGap(gap) && r != [] && EndsNumber(r)
    ensures EndsNumber(gap + r)
  {
    hide IsGap;
    GapBegins(gap);
  }

  /** A key read as a value is followed by a colon, which no value is. */
  lemma NoValue(braces: bool, gap: Text, after: Text, x: Wedge)
    ensures var s := Rest(x, gap, after);
      s != [] && ReadTree(s).Some? && ReadTail(braces, s[ReadTree(s).value.len..]) == None
  {
    hide ReadTail, ReadTree, Strings.Quote, Show;
    var t := [COLON, SPACE] + Show(x.value) + (EndOf(x) + (gap + after));
    var key := Strings.Quote(x.key);
    assert Rest(x, gap, after) == key + t;
    NoValueTail(braces, x.key, t);
    assert (key + t)[|key|..] == t;
  }

  lemma NoValueTail(braces: bool, key: Text, t: Text)
    requires t != [] && t[0] == COLON
    ensures ReadTree(Strings.Quote(key) + t) == Some(Read(Leaf(Strings.Quote(key)), |Strings.Quote(key)|))
    ensures Strings.Quote(key) != [] && ReadTail(braces, t) == None
  {
    hide Strings.Escape, ReadTree, ReadTail, Strings.Unescape;
    Strings.QuoteReadsBack(key);
    LeafReads(Strings.Quote(key), t);
    assert IsGap([]) by { BlanksAreGap([]); }
    NoTail(braces, [], t);
    assert [] + t == t;
  }

  /** An item of an array is not followed by a colon. */
  lemma NoItem(gap: Text, after: Text, x: Wedge)
    ensures Rest(x, gap, after) != [] && ReadElem(false, Rest(x, gap, after)) == None
  {
    hide ReadTail, ReadTree, Rest;
    NoValue(false, gap, after, x);
    var s := Rest(x, gap, after);
    assert s[0..] == s;
  }

  // ----- In tokens, there is no line break -----

  lemma {:induction false} NoControl(body: Text, i: nat)
    requires Strings.Unescape(body).Some? && i < |body|
    ensures body[i] >= 0x20
  {
    if body[0] == BACKSLASH {
      var n := if |body| >= 2 && Strings.ShortEscape(body[1]).Some? then 2 else 6;
      if i >= n {
        NoControl(body[n..], i - n);
      } else if n == 6 {
        HexHasNoControl(body[2..6]);
        assert i >= 2 ==> body[i] == body[2..6][i - 2];
      }
    } else if i > 0 {
      NoControl(body[1..], i - 1);
    }
  }

  lemma HexHasNoControl(h: Text)
    requires |h| == 4 && Strings.ReadHex4(h).Some?
    ensures forall i :: 0 <= i < 4 ==> h[i] >= 0x20
  {
    assert Strings.HexValue(h[0]).Some? && Strings.HexValue(h[1]).Some? && Strings.HexValue(h[2]).Some? && Strings.HexValue(h[3]).Some?;
  }

  lemma StringUnbroken(token: Text, k: nat)
    requires Strings.IsString(token) && k < |token|
    ensures token[k] != LF && token[k] != CR
  {
    hide Strings.Unescape;
    var body := token[1..|token| - 1];
    if 0 < k < |token| - 1 {
      NoControl(body, k - 1);
      assert body[k - 1] == token[k];
    }
  }

  lemma LeafUnbroken(token: Text, k: nat)
    requires FormedLeaf(token) && k < |token|
    ensures token[k] != LF && token[k] != CR
  {
    hide Strings.IsString, ScalarLen;
    if token[0] == QUOTE {
      StringUnbroken(token, k);
    } else {
      ScalarIsVisible(token);
    }
  }

  // ----- In a key and its colon -----

  /** What reading a member's key makes of a member put in before its value. */
  lemma LeadPut(lead: Lead, r: Text, k: nat, x: Wedge) returns (divided: bool)
    requires FormedLead(true, lead) && IsToken(r) && IsWedge(x) && k < |ShowLead(lead)| && Breaks(ShowLead(lead) + r, k)
    ensures var s := Put(ShowLead(lead) + r, k, TextOf(x));
      && s != []
      && var read := ReadLead(true, s);
      read.Some? ==>
        && KeyOf(read.value.it) == KeyOf(lead) && read.value.len <= |s|
        && if divided then exists gap :: IsGap(gap) && s[read.value.len..] == Rest(x, gap, r)
           else read.value.len == |ShowLead(lead)| + |TextOf(x)| && s[read.value.len..] == r
  {
    hide IsGap, Skip, Rest, TextOf, ReadLead, IsWedge, Strings.IsString, KeyOf, FormedLead;
    KeyedIs(lead);
    var key, gap, pad := lead.key, lead.gap, lead.pad;
    var whole := ShowLead(lead) + r;
    BreakAt(whole, k);
    LeadSplit(key, gap, pad, r);
    BreakOfLead(key, gap, pad, r, k);
    if k < |key| + |gap| {
      GapOfKey(lead, r, k, x);
      divided := false;
    } else {
      divided := PadOfKey(lead, r, k, x);
    }
  }

  lemma KeyedIs(lead: Lead)
    requires FormedLead(true, lead)
    ensures lead.Keyed? && Strings.IsString(lead.key) && IsGap(lead.gap) && IsGap(lead.pad)
  {
  }

  lemma BreakOfLead(key: Text, gap: Text, pad: Text, r: Text, k: nat)
    requires Strings.IsString(key) && k < |key + gap + [COLON] + pad|
    requires var s := key + gap + [COLON] + pad + r; s[k] == LF || s[k] == CR
    ensures |key| <= k && k != |key| + |gap|
  {
    hide Strings.IsString;
    if k < |key| {
      StringUnbroken(key, k);
    }
  }

  lemma LeadSplit(key: Text, gap: Text, pad: Text, r: Text)
    ensures key + gap + [COLON] + pad + r == key + (gap + ([COLON] + (pad + r)))
    ensures key + gap + [COLON] + pad + r == (key + gap + [COLON]) + (pad + r)
  {
    Regroup5(key, gap, [COLON], pad, r);
    Assoc(key + gap + [COLON], pad, r);
  }

  lemma ColonToken(s: Text)
    ensures IsToken([COLON] + s)
  {
  }

  lemma SameKey(key: Text, gap: Text, pad: Text, other: Text, padding: Text)
    ensures KeyOf(Keyed(key, gap, pad)) == KeyOf(Keyed(key, other, padding))
  {
  }

  lemma GapOfKey(lead: Lead, r: Text, k: nat, x: Wedge)
    requires lead.Keyed? && FormedLead(true, lead) && IsToken(r) && IsWedge(x)
    requires |lead.key| <= k < |lead.key| + |lead.gap| && Breaks(ShowLead(lead) + r, k)
    ensures var s := Put(ShowLead(lead) + r, k, TextOf(x));
      && s != []
      && var read := ReadLead(true, s);
      read.Some? ==>
        && KeyOf(read.value.it) == KeyOf(lead) && read.value.len <= |s|
        && read.value.len == |ShowLead(lead)| + |TextOf(x)| && s[read.value.len..] == r
  {
    hide IsGap, Skip, Rest, TextOf, ReadLead, IsWedge, Strings.IsString, KeyOf;
    var key, gap, pad := lead.key, lead.gap, lead.pad;
    var t := [COLON] + (pad + r);
    LeadSplit(key, gap, pad, r);
    ColonToken(pad + r);
    BreaksBack(key, gap + t, k);
    PutBack(key, gap + t, k, TextOf(x));
    StringBegins(key);
    var j := k - |key|;
    var inside := GapPut(gap, j, x, t);
    if inside {
      var wider := Put(gap, j, TextOf(x));
      TokenStarts(r);
      KeyedReads(key, wider, pad, r);
      SameKey(key, wider, pad, gap, pad);
      LeadEnds(key, wider, pad, r);
    } else {
      var m := Rest(x, gap[j..], t);
      RestBegins(x, gap[j..], t);
      NoColon(key, gap[..j] + x.lead, m);
    }
  }

  lemma LeadEnds(key: Text, gap: Text, pad: Text, r: Text)
    ensures (key + (gap + ([COLON] + (pad + r))))[|key| + |gap| + 1 + |pad|..] == r
  {
    LeadSplit(key, gap, pad, r);
  }

  lemma NoColon(key: Text, gap: Text, r: Text)
    requires Strings.IsString(key) && IsGap(gap) && IsToken(r) && r[0] != COLON
    ensures key + (gap + r) != [] && ReadLead(true, key + (gap + r)) == None
  {
    hide IsGap, Skip, Strings.IsString, Strings.StringLen;
    KeyReads(key, gap + r);
    Halves(key, gap + r);
    SkipsTo(gap, r);
  }

  lemma PadOfKey(lead: Lead, r: Text, k: nat, x: Wedge) returns (divided: bool)
    requires lead.Keyed? && FormedLead(true, lead) && IsToken(r) && IsWedge(x)
    requires |lead.key| + |lead.gap| < k < |ShowLead(lead)| && Breaks(ShowLead(lead) + r, k)
    ensures var s := Put(ShowLead(lead) + r, k, TextOf(x));
      && s != []
      && var read := ReadLead(true, s);
      read.Some? ==>
        && KeyOf(read.value.it) == KeyOf(lead) && read.value.len <= |s|
        && if divided then exists gap :: IsGap(gap) && s[read.value.len..] == Rest(x, gap, r)
           else read.value.len == |ShowLead(lead)| + |TextOf(x)| && s[read.value.len..] == r
  {
    hide IsGap, Skip, Rest, TextOf, ReadLead, IsWedge, Strings.IsString, KeyOf;
    var key, gap, pad := lead.key, lead.gap, lead.pad;
    var front := key + gap + [COLON];
    LeadSplit(key, gap, pad, r);
    BreaksBack(front, pad + r, k);
    PutBack(front, pad + r, k, TextOf(x));
    StringBegins(key);
    var j := k - |front|;
    var inside := GapPut(pad, j, x, r);
    divided := !inside;
    var wider, m := if inside then Put(pad, j, TextOf(x)) else pad[..j] + x.lead, if inside then r else Rest(x, pad[j..], r);
    if !inside {
      RestBegins(x, pad[j..], r);
    }
    TokenStarts(m);
    LeadSplit(key, gap, wider, m);
    KeyedReads(key, gap, wider, m);
    SameKey(key, gap, wider, gap, pad);
    LeadEnds(key, gap, wider, m);
  }

  // ----- In a tree -----

  /** Whatever is put into a tree's text, if the tree is read at all it reaches as far as it did. */
  lemma {:induction false} TreePut(t: Tree, z: Text, k: nat, x: Wedge)
    requires Formed(t) && IsWedge(x) && k < |Show(t)| && Breaks(Show(t) + z, k)
    ensures var r := ReadTree(Put(Show(t) + z, k, TextOf(x)));
      r.Some? ==> r.value.len == |Show(t)| + |TextOf(x)|
    decreases t, 0
  {
    hide FormedElems, ShowElems, ReadElems, IsGap, ReadTree, TextOf, IsWedge, Rest, FormedLeaf;
    BreakAt(Show(t) + z, k);
    BreakOfTree(t, z, k);
    var shown := ShowElems(t.braces, t.elems);
    var open, r := [Opener(t.braces)], shown + z;
    ElemsBegin(t.braces, t.elems);
    assert r[0] == shown[0];
    Assoc(open, t.head, shown);
    Assoc(open, t.head + shown, z);
    Assoc(t.head, shown, z);
    BreaksBack(open, t.head + r, k);
    PutBack(open, t.head + r, k, TextOf(x));
    if k - 1 < |t.head| {
      HeadPut(t, z, k - 1, x);
    } else {
      var j := k - 1 - |t.head|;
      BreaksBack(t.head, r, k - 1);
      PutBack(t.head, r, k - 1, TextOf(x));
      ElemsPut(t.braces, t.elems, z, j, x, []);
      ElemsUnbroken(t.braces, t.elems, z, j);
      assert Put(r, j, TextOf(x))[0] == r[0];
      BranchLength(t.braces, t.head, Put(r, j, TextOf(x)));
    }
  }

  lemma BreakOfTree(t: Tree, z: Text, k: nat)
    requires Formed(t) && k < |Show(t)| && ((Show(t) + z)[k] == LF || (Show(t) + z)[k] == CR)
    ensures t.Branch? && k > 0
  {
    hide FormedLeaf;
    if t.Leaf? {
      LeafUnbroken(t.token, k);
    }
  }

  lemma ElemsUnbroken(braces: bool, es: Elems, z: Text, k: nat)
    requires FormedElems(braces, es) && Breaks(ShowElems(braces, es) + z, k)
    ensures k > 0
  {
    hide FormedElems, ShowElems;
    ElemsBegin(braces, es);
    BreakAt(ShowElems(braces, es) + z, k);
  }

  /** How far a bracket reaches, if it is read. */
  lemma BranchLength(braces: bool, head: Text, rest: Text)
    requires IsGap(head) && IsToken(rest)
    ensures var r, es := ReadTree([Opener(braces)] + (head + rest)), ReadElems(braces, rest);
      r.Some? ==> es.Some? && r.value.len == 1 + |head| + es.value.len
  {
    hide ReadElems, IsGap, Skip, ReadLeaf;
    SkipsTo(head, rest);
    var s := [Opener(braces)] + (head + rest);
    assert s[1..] == head + rest;
  }

  lemma HeadPut(t: Tree, z: Text, k: nat, x: Wedge)
    requires Formed(t) && t.Branch? && IsWedge(x) && k < |t.head|
    requires Breaks(t.head + (ShowElems(t.braces, t.elems) + z), k)
    ensures var shown := ShowElems(t.braces, t.elems);
      var r := ReadTree([Opener(t.braces)] + Put(t.head + (shown + z), k, TextOf(x)));
      r.Some? ==> r.value.len == 1 + |t.head| + |shown| + |TextOf(x)|
  {
    hide FormedElems, ShowElems, ReadElems, IsGap, ReadTree, IsWedge, Rest, MemberOf, EndOf;
    var shown, head := ShowElems(t.braces, t.elems), t.head;
    var r := shown + z;
    ElemsBegin(t.braces, t.elems);
    assert r[0] == shown[0];
    var inside := GapPut(head, k, x, r);
    if inside {
      ElemsRead(t.braces, t.elems, z);
      BranchLength(t.braces, Put(head, k, TextOf(x)), r);
    } else {
      RestBegins(x, head[k..], r);
      MemberReads(t.braces, t.elems, head[k..], z, x, []);
      BranchLength(t.braces, head[..k] + x.lead, Rest(x, head[k..], r));
    }
  }

  lemma ElemUnfolds(braces: bool, s: Text)
    requires s != [] && ReadElem(braces, s).Some?
    ensures ReadLead(braces, s).Some?
    ensures var lead := ReadLead(braces, s).value;
      && lead.len <= |s| && ReadTree(s[lead.len..]).Some?
      && var value := ReadTree(s[lead.len..]).value;
      && ReadTail(braces, s[lead.len..][value.len..]).Some?
      && var tail := ReadTail(braces, s[lead.len..][value.len..]).value;
      ReadElem(braces, s) == Some(Read(Elem(lead.it, value.it, tail.it), lead.len + value.len + tail.len))
  {
    hide ReadLead, ReadTree, ReadTail;
  }

  lemma ValueToken(t: Tree, rest: Text)
    requires Formed(t)
    ensures IsToken(Show(t) + rest) && StartsToken(Show(t) + rest) && (Show(t) + rest)[0] == Show(t)[0]
  {
    hide Show, Formed;
    TreeBegins(t);
    TokenStarts(Show(t) + rest);
  }

  lemma TailFollows(braces: bool, tail: Tail, r: Text)
    requires FormedTail(tail) && IsToken(r) && (tail.Plain? ==> r[0] == Closer(braces))
    ensures EndsNumber(ShowTail(tail) + r)
    ensures ReadTail(braces, ShowTail(tail) + r) == Some(Read(tail, |ShowTail(tail)|))
    ensures (ShowTail(tail) + r)[|ShowTail(tail)|..] == r
  {
    hide ShowTail, ReadTail, FormedTail;
    TokenStarts(r);
    TailReads(braces, tail, r);
    TailEndsNumber(braces, tail, r);
  }

  lemma InLead(braces: bool, elem: Elem, r: Text, k: nat, x: Wedge)
    requires FormedElem(braces, elem) && IsToken(r) && (elem.tail.Plain? ==> r[0] == Closer(braces)) && IsWedge(x)
    requires k < |ShowLead(elem.lead)|
    requires var whole := ShowLead(elem.lead) + (Show(elem.value) + (ShowTail(elem.tail) + r)); Breaks(whole, k)
    ensures var s := Put(ShowLead(elem.lead) + (Show(elem.value) + (ShowTail(elem.tail) + r)), k, TextOf(x));
      && s != []
      && var read := ReadElem(braces, s);
      read.Some? ==>
        && read.value.len <= |s| && KeyOf(read.value.it.lead) == KeyOf(elem.lead)
        && read.value.len == |ShowLead(elem.lead)| + |Show(elem.value)| + |ShowTail(elem.tail)| + |TextOf(x)|
        && s[read.value.len..] == r
  {
    hide ReadLead, ReadTree, ReadTail, ReadElem, Formed, FormedTail, FormedLead, Show, ShowTail, ShowLead, IsGap, IsWedge, TextOf, Rest, KeyOf;
    var v, t := Show(elem.value), ShowTail(elem.tail);
    var w := v + (t + r);
    ValueToken(elem.value, t + r);
    LeadBraces(braces, elem.lead, k);
    var s := Put(ShowLead(elem.lead) + w, k, TextOf(x));
    var divided := LeadPut(elem.lead, w, k, x);
    if ReadLead(true, s).Some? {
      if divided {
        var gap :| IsGap(gap) && s[ReadLead(true, s).value.len..] == Rest(x, gap, w);
        DividedLead(s, x, gap, w);
      } else {
        AfterLead(elem, r, s);
      }
    } else {
      NoLead(s);
    }
  }

  lemma NoLead(s: Text)
    requires s != [] && ReadLead(true, s).None?
    ensures ReadElem(true, s).None?
  {
    hide ReadLead;
  }

  /** A key followed by the member in place of its value. */
  lemma DividedLead(s: Text, x: Wedge, gap: Text, w: Text)
    requires s != [] && ReadLead(true, s).Some? && ReadLead(true, s).value.len <= |s|
    requires s[ReadLead(true, s).value.len..] == Rest(x, gap, w)
    ensures ReadElem(true, s).None?
  {
    hide ReadLead, ReadTree, ReadTail, Rest;
    NoValue(true, gap, w, x);
  }

  /** A key, however it is read, followed by the element's own value. */
  lemma AfterLead(elem: Elem, r: Text, s: Text)
    requires FormedElem(true, elem) && IsToken(r) && (elem.tail.Plain? ==> r[0] == RBRACE) && s != []
    requires ReadLead(true, s).Some? && ReadLead(true, s).value.len <= |s|
    requires s[ReadLead(true, s).value.len..] == Show(elem.value) + (ShowTail(elem.tail) + r)
    ensures var read, lead := ReadElem(true, s), ReadLead(true, s).value;
      read.Some? ==>
        && read.value.len == lead.len + |Show(elem.value)| + |ShowTail(elem.tail)| && read.value.len <= |s|
        && read.value.it.lead == lead.it && s[read.value.len..] == r
  {
    hide ReadLead, ReadTree, ReadTail, ReadElem, Show, ShowTail, FormedElem;
    if ReadElem(true, s).Some? {
      ElemUnfolds(true, s);
      FromValue(true, elem, r);
      Onward(s, ReadLead(true, s).value.len, |Show(elem.value)|, |ShowTail(elem.tail)|);
    }
  }

  /** An element's value and tail, whatever its key is read as. */
  lemma FromValue(braces: bool, elem: Elem, r: Text)
    requires FormedElem(braces, elem) && IsToken(r) && (elem.tail.Plain? ==> r[0] == Closer(braces))
    ensures var v, t := Show(elem.value), ShowTail(elem.tail);
      && ReadTree(v + (t + r)) == Some(Read(elem.value, |v|))
      && (v + (t + r))[|v|..] == t + r && ReadTail(braces, t + r) == Some(Read(elem.tail, |t|)) && (t + r)[|t|..] == r
  {
    hide ReadTree, ReadTail, Formed, FormedTail, FormedLead, Show, ShowTail;
    TailFollows(braces, elem.tail, r);
    TreeReads(elem.value, ShowTail(elem.tail) + r);
    Halves(Show(elem.value), ShowTail(elem.tail) + r);
  }

  lemma LeadBraces(braces: bool, lead: Lead, k: nat)
    requires FormedLead(braces, lead) && k < |ShowLead(lead)|
    ensures braces
  {
  }

  lemma Onward(s: Text, a: nat, b: nat, c: nat)
    requires a + b + c <= |s|
    ensures s[a..][b..][c..] == s[a + b + c..]
  {
  }

  lemma {:induction false} InValue(braces: bool, elem: Elem, r: Text, k: nat, x: Wedge)
    requires FormedElem(braces, elem) && IsToken(r) && (elem.tail.Plain? ==> r[0] == Closer(braces)) && IsWedge(x)
    requires |ShowLead(elem.lead)| <= k < |ShowLead(elem.lead)| + |Show(elem.value)|
    requires var whole := ShowLead(elem.lead) + (Show(elem.value) + (ShowTail(elem.tail) + r)); Breaks(whole, k)
    ensures var s := Put(ShowLead(elem.lead) + (Show(elem.value) + (ShowTail(elem.tail) + r)), k, TextOf(x));
      && s != []
      && var read := ReadElem(braces, s);
      read.Some? ==>
        && read.value.len <= |s| && KeyOf(read.value.it.lead) == KeyOf(elem.lead)
        && read.value.len == |ShowLead(elem.lead)| + |Show(elem.value)| + |ShowTail(elem.tail)| + |TextOf(x)|
        && s[read.value.len..] == r
    decreases elem, 0
  {
    hide ReadLead, ReadTree, ReadTail, ReadElem, Formed, FormedTail, FormedLead, Show, ShowTail, ShowLead, IsGap, IsWedge, TextOf, Rest, KeyOf;
    var l, v, t := ShowLead(elem.lead), Show(elem.value), ShowTail(elem.tail);
    var w, j := t + r, k - |l|;
    var put := Put(v + w, j, TextOf(x));
    BreaksBack(l, v + w, k);
    PutBack(l, v + w, k, TextOf(x));
    TreePut(elem.value, w, j, x);
    BreakAt(v + w, j);
    BreakOfTree(elem.value, w, j);
    ValueToken(elem.value, w);
    assert put[0] == v[0];
    TokenStarts(put);
    LeadReads(braces, elem.lead, put);
    var s := l + put;
    Halves(l, put);
    if ReadElem(braces, s).Some? {
      ElemUnfolds(braces, s);
      PutFront(v, w, j, TextOf(x));
      Halves(Put(v, j, TextOf(x)), w);
      TailFollows(braces, elem.tail, r);
      Onward(s, |l|, |v| + |TextOf(x)|, |t|);
    }
  }

  lemma InTail(braces: bool, elem: Elem, r: Text, k: nat, x: Wedge) returns (divided: bool, gap: Text)
    requires FormedElem(braces, elem) && IsToken(r) && (elem.tail.Plain? ==> r[0] == Closer(braces)) && IsWedge(x)
    requires |ShowLead(elem.lead)| + |Show(elem.value)| <= k < |ShowElem(elem)|
    requires var whole := ShowLead(elem.lead) + (Show(elem.value) + (ShowTail(elem.tail) + r)); Breaks(whole, k)
    ensures IsGap(gap)
    ensures var s := Put(ShowLead(elem.lead) + (Show(elem.value) + (ShowTail(elem.tail) + r)), k, TextOf(x));
      && s != []
      && var read := ReadElem(braces, s);
      read.Some? ==>
        && read.value.len <= |s| && KeyOf(read.value.it.lead) == KeyOf(elem.lead) && read.value.it.value == elem.value
        && if divided then
             && read.value.len + |MemberOf(x)| + |EndOf(x)| + |gap| == |ShowElem(elem)| + |TextOf(x)|
             && s[read.value.len..] == Rest(x, gap, r)
           else read.value.len == |ShowElem(elem)| + |TextOf(x)| && s[read.value.len..] == r
  {
    hide ReadLead, ReadTree, ReadTail, ReadElem, Formed, FormedTail, FormedLead, Show, ShowTail, ShowLead, IsGap, IsWedge, TextOf, Rest, KeyOf, MemberOf, EndOf;
    var l, v, t := ShowLead(elem.lead), Show(elem.value), ShowTail(elem.tail);
    assert |ShowElem(elem)| == |l| + |v| + |t|;
    var w, j := t + r, k - |l| - |v|;
    var put := Put(w, j, TextOf(x));
    BreaksBack(l, v + w, k);
    BreaksBack(v, w, k - |l|);
    PutBack(l, v + w, k, TextOf(x));
    PutBack(v, w, k - |l|, TextOf(x));
    TailFollows(braces, elem.tail, r);
    WedgeBegins(x);
    PutEndsNumber(w, j, TextOf(x));
    UpToTail(braces, elem, put);
    divided := TailPut(braces, elem.tail, r, j, x);
    gap := [];
    assert IsGap([]) by { BlanksAreGap([]); }
    if divided && ReadElem(braces, l + (v + put)).Some? {
      gap := elem.tail.after[j - |elem.tail.before| - 1..];
      TailLength(elem.tail, j, x);
    }
  }

  lemma PutEndsNumber(w: Text, j: nat, t: Text)
    requires EndsNumber(w) && j < |w| && t != [] && EndsNumber(t)
    ensures EndsNumber(Put(w, j, t))
  {
  }

  /** An element whose key and value stand, and some text after the value. */
  lemma UpToTail(braces: bool, elem: Elem, put: Text)
    requires FormedElem(braces, elem) && EndsNumber(put)
    ensures var s := ShowLead(elem.lead) + (Show(elem.value) + put);
      && s != []
      && var read, tail := ReadElem(braces, s), ReadTail(braces, put);
      read.Some? ==>
        && tail.Some? && tail.value.len <= |put|
        && read.value.it == Elem(elem.lead, elem.value, tail.value.it)
        && read.value.len == |ShowLead(elem.lead)| + |Show(elem.value)| + tail.value.len
        && read.value.len <= |s| && s[read.value.len..] == put[tail.value.len..]
  {
    hide ReadLead, ReadTree, ReadTail, ReadElem, Formed, FormedTail, FormedLead, Show, ShowLead;
    var l, v := ShowLead(elem.lead), Show(elem.value);
    ValueToken(elem.value, put);
    LeadReads(braces, elem.lead, v + put);
    TreeReads(elem.value, put);
    var s := l + (v + put);
    Halves(l, v + put);
    Halves(v, put);
    if ReadElem(braces, s).Some? {
      ElemUnfolds(braces, s);
      Onward(s, |l|, |v|, ReadTail(braces, put).value.len);
    }
  }

  lemma TailLength(tail: Tail, j: nat, x: Wedge)
    requires tail.Comma? && |tail.before| < j && j - |tail.before| - 1 <= |tail.after|
    ensures var gap := tail.after[j - |tail.before| - 1..];
      j + |x.lead| + |MemberOf(x)| + |EndOf(x)| + |gap| == |ShowTail(tail)| + |TextOf(x)|
  {
    hide MemberOf, EndOf;
  }

  /**
   * What reading an element makes of a member put into it: it is taken in, or it follows the
   * element's comma, and everything after is as it was.
   */
  lemma {:induction false} ElemPut(braces: bool, elem: Elem, r: Text, k: nat, x: Wedge) returns (divided: bool, gap: Text)
    requires FormedElem(braces, elem) && IsToken(r) && (elem.tail.Plain? ==> r[0] == Closer(braces)) && IsWedge(x)
    requires k < |ShowElem(elem)| && Breaks(ShowElem(elem) + r, k)
    ensures Put(ShowElem(elem) + r, k, TextOf(x)) != []
    ensures IsGap(gap)
    ensures var s := Put(ShowElem(elem) + r, k, TextOf(x));
      var read := ReadElem(braces, s);
      read.Some? ==>
        && read.value.len <= |s| && KeyOf(read.value.it.lead) == KeyOf(elem.lead)
        && (|ShowLead(elem.lead)| + |Show(elem.value)| <= k ==> read.value.it.value == elem.value)
        && if divided then
             && read.value.len + |MemberOf(x)| + |EndOf(x)| + |gap| == |ShowElem(elem)| + |TextOf(x)|
             && s[read.value.len..] == Rest(x, gap, r)
           else read.value.len == |ShowElem(elem)| + |TextOf(x)| && s[read.value.len..] == r
    decreases elem
  {
    hide ReadLead, ReadTree, ReadTail, Formed, FormedTail, FormedLead, Show, ShowTail, ShowLead, IsGap, IsWedge, TextOf, Rest, MemberOf, EndOf;
    var l, v, t := ShowLead(elem.lead), Show(elem.value), ShowTail(elem.tail);
    divided, gap := false, [];
    assert IsGap([]) by { BlanksAreGap([]); }
    Assoc(l, v, t);
    Assoc(l, v + t, r);
    Assoc(v, t, r);
    if k < |l| {
      InLead(braces, elem, r, k, x);
    } else if k < |l| + |v| {
      InValue(braces, elem, r, k, x);
    } else {
      divided, gap := InTail(braces, elem, r, k, x);
    }
  }

  /** The same of elements: in an object, a key that named nothing names nothing still, or the member. */
  lemma {:induction false} ElemsPut(braces: bool, es: Elems, z: Text, k: nat, x: Wedge, key: Text)
    requires FormedElems(braces, es) && IsWedge(x) && k < |ShowElems(braces, es)| && Breaks(ShowElems(braces, es) + z, k)
    ensures var r := ReadElems(braces, Put(ShowElems(braces, es) + z, k, TextOf(x)));
      r.Some? ==>
        && r.value.len == |ShowElems(braces, es)| + |TextOf(x)|
        && (braces && LastOf(es, key).None? ==> OnlyWedge(r.value.it, key, x))
    decreases es, 1
  {
    hide FormedElem, ShowElem, ReadElem, IsGap, IsWedge, TextOf, Rest, ReadElems, KeyOf, ValueOf, MemberOf, EndOf;
    ElemsUnbroken(braces, es, z, k);
    ElemsBegin(braces, es);
    var elem, after := es.elem, ShowElems(braces, es.rest) + z;
    var e := ShowElem(elem);
    Assoc(e, ShowElems(braces, es.rest), z);
    ElemsBegin(braces, es.rest);
    var s := Put(e + after, k, TextOf(x));
    assert s[0] == (e + after)[0] == ShowElems(braces, es)[0];
    if k < |e| {
      var divided, gap := ElemPut(braces, elem, after, k, x);
      ElemsRead(braces, es.rest, z);
      MemberReads(braces, es.rest, gap, z, x, key);
      ElemsUnfold(braces, s);
    } else {
      BreaksBack(e, after, k);
      PutBack(e, after, k, TextOf(x));
      ElemsUnbroken(braces, es.rest, z, k - |e|);
      ElemReads(braces, elem, Put(after, k - |e|, TextOf(x)));
      Halves(e, Put(after, k - |e|, TextOf(x)));
      ElemsPut(braces, es.rest, z, k - |e|, x, key);
      ElemsUnfold(braces, s);
    }
  }

  lemma ElemsUnfold(braces: bool, s: Text)
    requires s != [] && s[0] != Closer(braces)
    ensures ReadElems(braces, s).Some? ==>
      && ReadElem(braces, s).Some?
      && var first := ReadElem(braces, s).value;
      && first.len <= |s| && ReadElems(braces, s[first.len..]).Some?
      && var rest := ReadElems(braces, s[first.len..]).value;
      ReadElems(braces, s) == Some(Read(More(first.it, rest.it), first.len + rest.len))
  {
    hide ReadElem;
  }

  /** The same of an object's members, when the member is put in behind the value of the one member a key names. */
  lemma {:induction false} BehindPut(es: Elems, i: nat, z: Text, k: nat, x: Wedge)
    requires FormedElems(true, es) && IsWedge(x) && i < Size(es) && Times(es, KeyOf(ElemAt(es, i).lead)) == 1
    requires |Before(es, i)| + |ShowLead(ElemAt(es, i).lead)| + |Show(ElemAt(es, i).value)| <= k < |ShowElems(true, es)|
    requires Breaks(ShowElems(true, es) + z, k)
    ensures var r, elem := ReadElems(true, Put(ShowElems(true, es) + z, k, TextOf(x))), ElemAt(es, i);
      r.Some? ==>
        && r.value.len == |ShowElems(true, es)| + |TextOf(x)|
        && (|| LastOf(r.value.it, KeyOf(elem.lead)) == Some(ValueOf(elem.value))
            || LastOf(r.value.it, KeyOf(elem.lead)) == Some(ValueOf(x.value)))
    decreases i
  {
    hide FormedElem, ShowElem, ReadElem, IsGap, IsWedge, TextOf, Rest, ReadElems, KeyOf, ValueOf, MemberOf, EndOf, Show, ShowLead, ShowElems;
    var elem, rest := es.elem, ShowElems(true, es.rest);
    var after, e, key := rest + z, ShowElem(es.elem), KeyOf(ElemAt(es, i).lead);
    ElemsShown(es);
    EndShown();
    Assoc(e, rest, z);
    ElemsBegin(true, es);
    ElemsBegin(true, es.rest);
    assert after[0] == rest[0];
    ElemAtFormed(true, es, 0);
    var s := Put(e + after, k, TextOf(x));
    ElemsUnbroken(true, es, z, k);
    assert s[0] == (e + after)[0] == ShowElems(true, es)[0];
    ElemsUnfold(true, s);
    if i == 0 {
      OnceHere(es, key);
    } else {
      BeforeFits(es, i, k);
    }
    if k < |e| {
      var divided, gap := ElemPut(true, elem, after, k, x);
      ElemsRead(true, es.rest, z);
      MemberReads(true, es.rest, gap, z, x, key);
    } else {
      BreaksBack(e, after, k);
      PutBack(e, after, k, TextOf(x));
      ElemsUnbroken(true, es.rest, z, k - |e|);
      ElemReads(true, elem, Put(after, k - |e|, TextOf(x)));
      Halves(e, Put(after, k - |e|, TextOf(x)));
      if i == 0 {
        ElemsPut(true, es.rest, z, k - |e|, x, key);
      } else {
        TimesRest(es, i);
        BehindPut(es.rest, i - 1, z, k - |e|, x);
      }
    }
  }

  lemma ElemsShown(es: Elems)
    requires es.More?
    ensures ShowElems(true, es) == ShowElem(es.elem) + ShowElems(true, es.rest)
  {
    hide ShowElem;
  }

  lemma BeforeFits(es: Elems, i: nat, k: nat)
    requires 0 < i < Size(es) && |Before(es, i)| <= k
    ensures |ShowElem(es.elem)| <= k && |Before(es, i)| == |ShowElem(es.elem)| + |Before(es.rest, i - 1)|
  {
    hide ShowElem;
  }

  lemma {:induction false} NoneLast(es: Elems, key: Text)
    requires Times(es, key) == 0
    ensures LastOf(es, key).None?
  {
    hide KeyOf, ValueOf;
    if es.More? {
      NoneLast(es.rest, key);
    }
  }

  lemma OnceHere(es: Elems, key: Text)
    requires es.More? && KeyOf(es.elem.lead) == key && Times(es, key) == 1
    ensures LastOf(es.rest, key).None?
  {
    hide KeyOf;
    NoneLast(es.rest, key);
  }

  lemma {:induction false} TimesRest(es: Elems, i: nat)
    requires 0 < i < Size(es) && Times(es, KeyOf(ElemAt(es, i).lead)) == 1
    ensures Times(es.rest, KeyOf(ElemAt(es, i).lead)) == 1 && KeyOf(es.elem.lead) != KeyOf(ElemAt(es, i).lead)
  {
    hide KeyOf;
    AtIsIn(es.rest, i - 1);
    TimesIsIn(es.rest, KeyOf(ElemAt(es, i).lead));
  }
}
