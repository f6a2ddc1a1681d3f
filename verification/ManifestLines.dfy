/** What the store functions of dedupe/dedupe.c write for an item, and what the readers make of it. */
module ManifestLines {
  import opened ImgChunks
  import opened Numbers
  import opened Manifest

  /** Numbers as the file system has them. */
  ghost predicate InRange(i: Item) {
    && i.meta.mode < 0x1000 && i.meta.uid <= INT_MAX && i.meta.gid <= INT_MAX
    && i.meta.atime <= LONG_MAX && i.meta.mtime <= LONG_MAX && i.meta.ctime <= LONG_MAX
    && (i.body.FileBody? ==> i.body.size <= INT_MAX)
  }

  /** No tab, newline or NUL cuts the line, and `fgets` has room for it. */
  ghost predicate Legible(version: int, i: Item) {
    && Plain(i.meta.selabel) && Plain(i.path) && InRange(i) && |LineOf(version, i)| < PATH_MAX
    && (i.body.FileBody? ==> Plain(i.body.key) && |i.body.key| < 128)
    && (i.body.LinkBody? ==> Plain(i.body.target))
  }

  /** The extract loop has room for 40 characters of a link. */
  predicate ShortLink(i: Item) {
    i.body.LinkBody? ==> |i.body.target| <= 40
  }

  /** What is read of an item. */
  function Kept(version: int, i: Item): (r: Item) {
    if version >= 2 then i.(meta := i.meta.(ctime := 0)) else i.(meta := i.meta.(atime := 0, mtime := 0, ctime := 0))
  }

  // ----- the fields -----

  lemma DigitsPlain(s: string)
    requires AllDigits(s)
    ensures Plain(s)
  {
  }

  ghost predicate Short(s: string) {
    Plain(s) && |s| < 32
  }

  lemma NumberFields(i: Item)
    requires InRange(i)
    ensures Plain(Printed(i.meta.mode, 8)) && |Printed(i.meta.mode, 8)| <= 4
    ensures Short(Printed(i.meta.uid, 10)) && Short(Printed(i.meta.gid, 10)) && Short(Printed(i.meta.atime, 10))
    ensures Short(Printed(i.meta.mtime, 10)) && Short(Printed(i.meta.ctime, 10))
    ensures i.body.FileBody? ==> Short(Printed(i.body.size, 10))
  {
    hide Plain, AllDigits, Printed, Short;
    PrintedOctal(i.meta.mode);
    DigitsPlain(Printed(i.meta.mode, 8));
    FewDigits(i.meta.mode);
    NumberField(i.meta.uid);
    NumberField(i.meta.gid);
    NumberField(i.meta.atime);
    NumberField(i.meta.mtime);
    NumberField(i.meta.ctime);
    if i.body.FileBody? { NumberField(i.body.size); }
  }

  lemma NumberField(n: nat)
    requires n <= LONG_MAX
    ensures Short(Printed(n, 10))
  {
    hide Plain, AllDigits, Printed;
    PrintedDecimal(n);
    DigitsPlain(Printed(n, 10));
    FewDigits(n);
  }

  lemma {:induction false} TabbedLonger(fields: seq<string>, k: nat)
    requires k < |fields|
    ensures |fields[k]| < |Tabbed(fields)|
  {
    if k > 0 { TabbedLonger(fields[1..], k - 1); }
  }

  /** The fields up to the path always have room. */
  lemma HeadFits(version: int, i: Item)
    requires Legible(version, i)
    ensures AllPlain(HeadFields(version, i)) && Roomy(HeadFields(version, i), HeadSizes(version))
  {
    hide Plain, Printed, Tabbed;
    NumberFields(i);
    var f := HeadFields(version, i);
    TabbedLonger(f, 4);
    TabbedLonger(f, |f| - 1);
    assert Plain(Kind(i.body)) by { KindPlain(i.body); }
  }

  lemma KindPlain(b: Body)
    ensures Plain(Kind(b))
  {
  }

  /** The fields after it have room unless a link is too long. */
  lemma BodyFits(version: int, i: Item)
    requires Legible(version, i)
    ensures BodySizes(Kind(i.body)).Some? && AllPlain(BodyFields(i.body))
    ensures |BodyFields(i.body)| == |BodySizes(Kind(i.body)).value|
    ensures Roomy(BodyFields(i.body), BodySizes(Kind(i.body)).value) <==> ShortLink(i)
  {
    hide Plain, Printed;
    NumberFields(i);
  }

  lemma FieldsBack(version: int, i: Item)
    requires Legible(version, i)
    ensures BodySizes(Kind(i.body)).Some?
    ensures var end := |Tabbed(HeadFields(version, i))|;
            && end <= |LineOf(version, i)|
            && FieldsAt(LineOf(version, i), 0, HeadSizes(version)) == Some(Fields(HeadFields(version, i), end))
            && FieldsAt(LineOf(version, i), end, BodySizes(Kind(i.body)).value)
               == if ShortLink(i) then Some(Fields(BodyFields(i.body), |LineOf(version, i)| - 1)) else None
  {
    hide FieldsAt, Tabbed, Printed, Legible, AllPlain, Roomy, HeadFields, BodyFields;
    var head, body := Tabbed(HeadFields(version, i)), Tabbed(BodyFields(i.body));
    HeadFits(version, i);
    BodyFits(version, i);
    RoomyCount(HeadFields(version, i), HeadSizes(version));
    TabbedFields("", HeadFields(version, i), body + [NEWLINE], HeadSizes(version));
    assert "" + head + (body + [NEWLINE]) == LineOf(version, i) && "" + head == head;
    TabbedFields(head, BodyFields(i.body), [NEWLINE], BodySizes(Kind(i.body)).value);
  }

  lemma RoomyCount(fields: seq<string>, sizes: seq<nat>)
    requires Roomy(fields, sizes)
    ensures |fields| == |sizes|
  {
  }

  lemma NumbersBack(version: int, i: Item)
    requires InRange(i)
    ensures var h := HeadFields(version, i);
            IdsInRange(h) && TimesInRange(h) && MetaOf(h) == Kept(version, i).meta
  {
    hide NumberOf, Octal, Printed, AllDigits;
    PrintedOctal(i.meta.mode);
    ModeInInt(i.meta.mode);
    PrintedDecimal(i.meta.uid);
    PrintedDecimal(i.meta.gid);
    PrintedDecimal(i.meta.atime);
    PrintedDecimal(i.meta.mtime);
  }

  /** The octal digits of a mode, taken as a decimal number, are an int. */
  lemma ModeInInt(mode: nat)
    requires mode < 0x1000
    ensures InInt(NumberOf(Printed(mode, 8)))
  {
    hide NumberOf, Printed;
    PrintedOctal(mode);
    FewDigits(mode);
    DigitsNumber(Printed(mode, 8));
    ValueBelow(Printed(mode, 8), 4);
    assert Power(10, 4) == 10_000;
  }

  lemma {:induction false} ValueBelow(s: string, k: nat)
    requires |s| <= k
    ensures Value(s) < Power(10, k)
  {
    if s != "" {
      ValueBelow(s[..|s| - 1], k - 1);
    } else {
      PowerPositive(k);
    }
  }

  lemma {:induction false} PowerPositive(k: nat)
    ensures Power(10, k) > 0
  {
    if k > 0 { PowerPositive(k - 1); }
  }

  // ----- the lines -----

  /** An item is read back from its line if and only if it is no link of more than 40 characters; a longer one
      overruns its buffer. */
  lemma LineRow(version: int, i: Item)
    requires Legible(version, i)
    ensures RowAt(version, LineOf(version, i)) == if ShortLink(i) then Row(Kept(version, i)) else Overrun
  {
    hide FieldsAt, LineOf, Tabbed, NumberOf, Octal, Printed, MetaOf, Plain, InInt;
    FieldsBack(version, i);
    NumbersBack(version, i);
    if i.body.FileBody? { SizeBack(i.body.size); }
  }

  lemma SizeBack(n: nat)
    requires n <= INT_MAX
    ensures NumberOf(Printed(n, 10)) == n && InInt(n) && AsUnsigned(n, INT_MAX) == n
  {
    hide NumberOf, Printed;
    PrintedDecimal(n);
  }

  /** The gc loop finds the key of every file, and does not look at links. */
  lemma LineUse(version: int, i: Item)
    requires Legible(version, i)
    ensures UseAt(version, LineOf(version, i)) == if i.body.FileBody? then Uses(i.body.key) else UsesNothing
  {
    hide FieldsAt, LineOf, Tabbed, NumberOf, Octal, Printed, MetaOf, Plain, InInt, NameFits;
    FieldsBack(version, i);
    NumbersBack(version, i);
    HeadSplit(version, LineOf(version, i), [128, 32]);
    assert [PATH_MAX] + [128, 32] == [PATH_MAX, 128, 32];
    var ids := FieldsAt(LineOf(version, i), 0, IdSizes(version)).value;
    assert |ids.texts| >= 5 && ids.texts == HeadFields(version, i)[..|ids.texts|];
    if i.body.FileBody? {
      SizeBack(i.body.size);
      assert BodySizes("f") == Some([128, 32]);
    }
  }

  /** The fields before the name. */
  function IdFields(version: int, i: Item): (f: seq<string>) {
    HeadFields(version, i)[..|IdSizes(version)|]
  }

  /** A line that was cut off in its name, as by an interrupted store, is no obstacle to gc unless it is one of a
      file; extraction runs over it. */
  lemma CutName(version: int, i: Item, n: nat)
    requires Legible(version, i) && n <= |i.path|
    ensures var line := Tabbed(IdFields(version, i)) + i.path[..n];
            && RowAt(version, line) == Overrun
            && UseAt(version, line) == if i.body.FileBody? then UseOverrun else UsesNothing
  {
    hide FieldsAt, Tabbed, NumberOf, Octal, Printed, MetaOf, Roomy, AllPlain, InInt;
    var ids := IdFields(version, i);
    var line := Tabbed(ids) + i.path[..n];
    HeadFits(version, i);
    IdsFit(version, i);
    TabbedFields("", ids, i.path[..n], IdSizes(version));
    assert "" + Tabbed(ids) + i.path[..n] == line && "" + Tabbed(ids) == Tabbed(ids);
    assert i.path[..n] == line[|Tabbed(ids)|..];
    NumbersBack(version, i);
    CutToken(line, |Tabbed(ids)|);
    FieldsSplit(line, 0, IdSizes(version), PATH_MAX);
    TabbedLonger(HeadFields(version, i), |HeadFields(version, i)| - 1);
  }

  lemma IdsFit(version: int, i: Item)
    requires AllPlain(HeadFields(version, i)) && Roomy(HeadFields(version, i), HeadSizes(version))
    ensures AllPlain(IdFields(version, i)) && Roomy(IdFields(version, i), IdSizes(version))
  {
    hide Plain, Printed;
  }

  /** There is no field in a rest without tabs. */
  lemma CutToken(line: string, at: nat)
    requires at <= |line| && Plain(line[at..])
    ensures TokenAt(line, at) == None && TokenEnd(line, at) == |line|
    ensures forall sizes: seq<nat> :: sizes != [] ==> FieldsAt(line, at, sizes) == None
  {
    assert forall k :: at <= k < |line| ==> line[k] == line[at..][k - at];
  }

  /** Whatever the line: no link of more than 40 characters, or with a tab, is ever read. */
  lemma LinksAreShort(version: int, line: string)
    requires RowAt(version, line).Row? && RowAt(version, line).item.body.LinkBody?
    ensures |RowAt(version, line).item.body.target| <= 40 && TAB !in RowAt(version, line).item.body.target
  {
    hide TokenAt, MetaOf, NumberOf, Octal;
    var head := FieldsAt(line, 0, HeadSizes(version)).value;
    var t := TokenAt(line, head.end).value;
    assert IsToken(line, head.end, t) by { TokenIs(line, head.end); }
    assert RowAt(version, line).item.body.target == t.text;
  }

  lemma TokenIs(line: string, at: nat)
    requires at <= |line| && TokenAt(line, at).Some?
    ensures IsToken(line, at, TokenAt(line, at).value)
  {
  }

  /** With all other fields in order, a link is read back if and only if it has at most 40 characters and no tab. */
  lemma LinkReadBack(version: int, i: Item)
    requires i.body.LinkBody? && Legible(version, i.(body := LinkBody(""))) && |LineOf(version, i)| < PATH_MAX
    requires NEWLINE !in i.body.target && NUL !in i.body.target
    ensures RowAt(version, LineOf(version, i)) == Row(Kept(version, i)) <==>
            |i.body.target| <= 40 && TAB !in i.body.target
  {
    hide RowAt, LineOf;
    if TAB !in i.body.target {
      LineRow(version, i);
    }
    if RowAt(version, LineOf(version, i)) == Row(Kept(version, i)) { LinksAreShort(version, LineOf(version, i)); }
  }
}
