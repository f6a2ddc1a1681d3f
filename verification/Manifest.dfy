/** The lines of a manifest of dedupe/dedupe.c: one for every file, link and directory, written by `print_stat` and
    the store functions, and taken apart by the extract and gc loops. */
module Manifest {
  import opened ImgChunks
  import opened Numbers

  const PATH_MAX: nat := 4096
  const DEDUPE_VERSION: int := 2

  // ----- fields -----

  const TAB: char := '\t'
  const NEWLINE: char := '\n'
  const NUL: char := '\0'

  /** Every field is followed by a tab. */
  function Tabbed(fields: seq<string>): (s: string) {
    if fields == [] then "" else fields[0] + [TAB] + Tabbed(fields[1..])
  }

  predicate Plain(s: string) {
    forall i :: 0 <= i < |s| ==> s[i] != TAB && s[i] != NEWLINE && s[i] != NUL
  }

  /** A field and where the next one starts. */
  datatype Token = Token(text: string, next: nat)

  /** The text up to the first tab from position `at` on. */
  ghost predicate IsToken(line: string, at: nat, t: Token) {
    && at < t.next <= |line| && t.text == line[at..t.next - 1] && line[t.next - 1] == TAB
    && forall i :: at <= i < t.next - 1 ==> line[i] != TAB && line[i] != NUL
  }

  function TokenEnd(line: string, at: nat): (e: nat)
    requires at <= |line|
    ensures at <= e <= |line| && (forall i :: at <= i < e ==> line[i] != TAB && line[i] != NUL)
    ensures e < |line| ==> line[e] == TAB || line[e] == NUL
    decreases |line| - at
  {
    if at == |line| || line[at] == TAB || line[at] == NUL then at else TokenEnd(line, at + 1)
  }

  /** The field at a position; None if the line ends before a tab. */
  function TokenAt(line: string, at: nat): (r: Option<Token>)
    requires at <= |line|
    ensures r.Some? ==> IsToken(line, at, r.value)
    ensures r.None? ==> forall t :: !IsToken(line, at, t)
  {
    var e := TokenEnd(line, at);
    if e < |line| && line[e] == TAB then Some(Token(line[at..e], e + 1)) else None
  }

  /** `tokenize` */
  method Tokenize(line: string, at: nat) returns (r: Option<Token>)
    requires at <= |line|
    ensures r == TokenAt(line, at)
  {
    var i := at;
    while i < |line| && line[i] != NUL && line[i] != TAB
      invariant at <= i <= |line| && TokenEnd(line, at) == TokenEnd(line, i)
    {
      i := i + 1;
    }
    if i == |line| || line[i] == NUL { return None; }
    return Some(Token(line[at..i], i + 1));
  }

  lemma FirstToken(pre: string, field: string, post: string)
    requires Plain(field)
    ensures TokenAt(pre + field + [TAB] + post, |pre|) == Some(Token(field, |pre| + |field| + 1))
  {
    var line := pre + field + [TAB] + post;
    assert IsToken(line, |pre|, Token(field, |pre| + |field| + 1));
  }

  /** The texts of some fields, and where the next field starts. */
  datatype Fields = Fields(texts: seq<string>, end: nat)

  /** What a row of `tokenize` calls into buffers of the given sizes leaves there.  None if a field is missing, or
      too long for its buffer: the program is then undefined. */
  function FieldsAt(line: string, at: nat, sizes: seq<nat>): (r: Option<Fields>)
    requires at <= |line|
    ensures r.Some? ==> |r.value.texts| == |sizes| && at <= r.value.end <= |line|
    decreases |sizes|
  {
    if sizes == [] then Some(Fields([], at))
    else
      var t := TokenAt(line, at);
      if t.None? || |t.value.text| >= sizes[0] then None
      else
        var rest := FieldsAt(line, t.value.next, sizes[1..]);
        if rest.None? then None else Some(Fields([t.value.text] + rest.value.texts, rest.value.end))
  }

  method ReadFields(line: string, at: nat, sizes: seq<nat>) returns (r: Option<Fields>)
    requires at <= |line|
    ensures r == FieldsAt(line, at, sizes)
  {
    hide IsToken, TokenEnd;
    var texts: seq<string>, p: nat, k: nat := [], at, 0;
    assert sizes[0..] == sizes;
    PrependNone(FieldsAt(line, at, sizes));
    while k < |sizes|
      invariant 0 <= k <= |sizes| && p <= |line|
      invariant FieldsAt(line, at, sizes) == Prepend(texts, FieldsAt(line, p, sizes[k..]))
    {
      assert sizes[k..][1..] == sizes[k + 1..];
      var t := Tokenize(line, p);
      if t.None? || |t.value.text| >= sizes[k] { return None; }
      TokenBounds(line, p, t.value);
      PrependMore(texts, t.value.text, FieldsAt(line, t.value.next, sizes[k + 1..]));
      texts, p, k := texts + [t.value.text], t.value.next, k + 1;
    }
    assert sizes[k..] == [] && texts + [] == texts;
    return Some(Fields(texts, p));
  }

  function Prepend(texts: seq<string>, f: Option<Fields>): (r: Option<Fields>) {
    if f.None? then None else Some(Fields(texts + f.value.texts, f.value.end))
  }

  lemma PrependNone(f: Option<Fields>)
    ensures Prepend([], f) == f
  {
    if f.Some? { assert [] + f.value.texts == f.value.texts; }
  }

  lemma PrependMore(texts: seq<string>, t: string, f: Option<Fields>)
    ensures Prepend(texts, Prepend([t], f)) == Prepend(texts + [t], f)
  {
    if f.Some? { assert texts + ([t] + f.value.texts) == texts + [t] + f.value.texts; }
  }

  lemma TokenBounds(line: string, at: nat, t: Token)
    requires IsToken(line, at, t)
    ensures at < t.next <= |line|
  {
  }

  ghost predicate AllPlain(fields: seq<string>) {
    forall i :: 0 <= i < |fields| ==> Plain(fields[i])
  }

  ghost predicate Roomy(fields: seq<string>, sizes: seq<nat>) {
    |fields| == |sizes| && forall i :: 0 <= i < |fields| ==> |fields[i]| < sizes[i]
  }

  /** Fields written one after the other are read back, if and only if each has room in its buffer. */
  lemma {:induction false} TabbedFields(pre: string, fields: seq<string>, post: string, sizes: seq<nat>)
    requires |fields| == |sizes| && AllPlain(fields)
    ensures FieldsAt(pre + Tabbed(fields) + post, |pre|, sizes)
            == if Roomy(fields, sizes) then Some(Fields(fields, |pre + Tabbed(fields)|)) else None
    decreases |fields|
  {
    hide Plain, TokenAt, IsToken;
    var line := pre + Tabbed(fields) + post;
    if fields != [] {
      var pre' := pre + fields[0] + [TAB];
      assert line == pre' + Tabbed(fields[1..]) + post;
      TabbedFields(pre', fields[1..], post, sizes[1..]);
      assert |pre' + Tabbed(fields[1..])| == |pre + Tabbed(fields)|;
      FirstToken(pre, fields[0], Tabbed(fields[1..]) + post);
      assert line == pre + fields[0] + [TAB] + (Tabbed(fields[1..]) + post);
      RoomySplit(fields, sizes);
      assert [fields[0]] + fields[1..] == fields;
    }
  }

  lemma RoomySplit(fields: seq<string>, sizes: seq<nat>)
    requires |fields| == |sizes| > 0
    ensures Roomy(fields, sizes) <==> |fields[0]| < sizes[0] && Roomy(fields[1..], sizes[1..])
  {
    if |fields[0]| < sizes[0] && Roomy(fields[1..], sizes[1..]) {
      assert forall i :: 0 < i < |fields| ==> fields[i] == fields[1..][i - 1] && sizes[i] == sizes[1..][i - 1];
    }
  }

  // ----- items -----

  datatype Meta = Meta(mode: nat, uid: nat, gid: nat, selabel: string, atime: nat, mtime: nat, ctime: nat)

  datatype Body = FileBody(key: string, size: nat) | LinkBody(target: string) | DirBody

  datatype Item = Item(meta: Meta, path: string, body: Body)

  function Kind(b: Body): (s: string) {
    match b
    case FileBody(_, _) => "f"
    case LinkBody(_) => "l"
    case DirBody => "d"
  }

  /** The fields up to the path; before version 2 there were no times. */
  function HeadFields(version: int, i: Item): (f: seq<string>) {
    var m := i.meta;
    var ids := [Kind(i.body), Printed(m.mode, 8), Printed(m.uid, 10), Printed(m.gid, 10), m.selabel];
    if version >= 2 then ids + [Printed(m.atime, 10), Printed(m.mtime, 10), Printed(m.ctime, 10), i.path]
    else ids + [i.path]
  }

  function BodyFields(b: Body): (f: seq<string>) {
    match b
    case FileBody(key, size) => [key, Printed(size, 10)]
    case LinkBody(target) => [target]
    case DirBody => []
  }

  /** What `print_stat` and the store functions of a version write. */
  function LineOf(version: int, i: Item): (s: string) {
    Tabbed(HeadFields(version, i)) + Tabbed(BodyFields(i.body)) + [NEWLINE]
  }

  function Line(i: Item): (s: string) {
    LineOf(DEDUPE_VERSION, i)
  }

  // ----- reading a line -----

  /** The buffers for the fields before the name. */
  function IdSizes(version: int): (s: seq<nat>) {
    if version >= 2 then [4, 8, 32, 32, PATH_MAX, 32, 32, 32] else [4, 8, 32, 32, PATH_MAX]
  }

  function HeadSizes(version: int): (s: seq<nat>) {
    IdSizes(version) + [PATH_MAX]
  }

  function BodySizes(kind: string): (s: Option<seq<nat>>) {
    if kind == "f" then Some([128, 32]) else if kind == "l" then Some([41]) else if kind == "d" then Some([]) else None
  }

  const INT_MAX: int := 0x7fff_ffff
  const LONG_MAX: int := 0x7fff_ffff_ffff_ffff

  predicate InInt(v: int) { -INT_MAX - 1 <= v <= INT_MAX }

  predicate InLong(v: int) { -LONG_MAX - 1 <= v <= LONG_MAX }

  /** The unsigned number that a negative one is converted to. */
  function AsUnsigned(v: int, max: int): (r: nat)
    requires max >= 0 && v >= -max - 1
  {
    if v < 0 then v + 2 * max + 2 else v
  }

  /** The numbers of the first fields.  The conversion of one out of range is undefined. */
  predicate IdsInRange(h: seq<string>)
    requires |h| >= 4
  {
    InInt(NumberOf(h[1])) && InInt(Octal(NumberOf(h[1]))) && InInt(NumberOf(h[2])) && InInt(NumberOf(h[3]))
  }

  predicate TimesInRange(h: seq<string>) {
    |h| == 9 ==> InLong(NumberOf(h[5])) && InLong(NumberOf(h[6]))
  }

  /** The change time is skipped; times that are not there count as 0. */
  function MetaOf(h: seq<string>): (m: Meta)
    requires |h| >= 6 && IdsInRange(h) && TimesInRange(h)
  {
    Meta(AsUnsigned(Octal(NumberOf(h[1])), INT_MAX), AsUnsigned(NumberOf(h[2]), INT_MAX),
         AsUnsigned(NumberOf(h[3]), INT_MAX), h[4],
         if |h| == 9 then AsUnsigned(NumberOf(h[5]), LONG_MAX) else 0,
         if |h| == 9 then AsUnsigned(NumberOf(h[6]), LONG_MAX) else 0, 0)
  }

  /** What the extract loop makes of a line.  Overrun: a field is missing, too long, or a number out of range. */
  datatype Row = Row(item: Item) | UnknownType | Overrun

  function BodyRow(h: seq<string>, f: seq<string>): (r: Row)
    requires |h| >= 6 && IdsInRange(h) && BodySizes(h[0]).Some? && |f| == |BodySizes(h[0]).value|
  {
    if !TimesInRange(h) then Overrun
    else if h[0] == "f" then
      if InInt(NumberOf(f[1])) then
        Row(Item(MetaOf(h), h[|h| - 1], FileBody(f[0], AsUnsigned(NumberOf(f[1]), INT_MAX))))
      else Overrun
    else if h[0] == "l" then Row(Item(MetaOf(h), h[|h| - 1], LinkBody(f[0])))
    else Row(Item(MetaOf(h), h[|h| - 1], DirBody))
  }

  function RowAt(version: int, line: string): (r: Row) {
    var head := FieldsAt(line, 0, HeadSizes(version));
    if head.None? || !IdsInRange(head.value.texts) then Overrun
    else if BodySizes(head.value.texts[0]).None? then UnknownType
    else
      var body := FieldsAt(line, head.value.end, BodySizes(head.value.texts[0]).value);
      if body.None? then Overrun else BodyRow(head.value.texts, body.value.texts)
  }

  method ReadIds(h: seq<string>) returns (ok: bool, mode: int, uid: int, gid: int)
    requires |h| >= 4
    ensures ok <==> IdsInRange(h)
    ensures mode == Octal(NumberOf(h[1])) && uid == NumberOf(h[2]) && gid == NumberOf(h[3])
  {
    var decimal := Atoi(h[1]);
    mode := DecToOct(decimal);
    uid := Atoi(h[2]);
    gid := Atoi(h[3]);
    ok := InInt(decimal) && InInt(mode) && InInt(uid) && InInt(gid);
  }

  method ReadMeta(h: seq<string>, mode: int, uid: int, gid: int) returns (m: Option<Meta>)
    requires |h| >= 6 && IdsInRange(h)
    requires mode == Octal(NumberOf(h[1])) && uid == NumberOf(h[2]) && gid == NumberOf(h[3])
    ensures m == if TimesInRange(h) then Some(MetaOf(h)) else None
  {
    hide NumberOf, Octal;
    var atime, mtime := 0, 0;
    if |h| == 9 {
      atime := Atoi(h[5]);
      mtime := Atoi(h[6]);
      if !InLong(atime) || !InLong(mtime) { return None; }
    }
    return Some(Meta(AsUnsigned(mode, INT_MAX), AsUnsigned(uid, INT_MAX), AsUnsigned(gid, INT_MAX), h[4],
                     AsUnsigned(atime, LONG_MAX), AsUnsigned(mtime, LONG_MAX), 0));
  }

  /** One round of the extract loop takes a line apart. */
  method ReadItem(version: int, line: string) returns (r: Row)
    ensures r == RowAt(version, line)
  {
    hide NumberOf, Octal, FieldsAt, InInt, InLong, MetaOf;
    var head := ReadFields(line, 0, HeadSizes(version));
    if head.None? { return Overrun; }
    var h := head.value.texts;
    var ok, mode, uid, gid := ReadIds(h);
    if !ok { return Overrun; }
    var sizes := BodySizes(h[0]);
    if sizes.None? { return UnknownType; }
    var body := ReadFields(line, head.value.end, sizes.value);
    if body.None? { return Overrun; }
    var m := ReadMeta(h, mode, uid, gid);
    if m.None? { return Overrun; }
    if h[0] == "f" {
      var size := Atoi(body.value.texts[1]);
      if !InInt(size) { return Overrun; }
      return Row(Item(m.value, h[|h| - 1], FileBody(body.value.texts[0], Size(size))));
    }
    return Row(Item(m.value, h[|h| - 1], if h[0] == "l" then LinkBody(body.value.texts[0]) else DirBody));
  }

  function Size(v: int): (r: nat)
    requires InInt(v)
    ensures r == AsUnsigned(v, INT_MAX)
  {
    AsUnsigned(v, INT_MAX)
  }

  /** What the gc loop makes of a line: only the fields of files are looked at. */
  datatype Use = Uses(key: string) | UsesNothing | UseOverrun

  /** The name is copied to the tab or to the end of the line; what `tokenize` returns is not used. */
  predicate NameFits(line: string, at: nat)
    requires at <= |line|
  {
    var e := TokenEnd(line, at);
    e - at + (if e < |line| && line[e] == TAB then 1 else 0) <= PATH_MAX
  }

  function UseAt(version: int, line: string): (r: Use) {
    var ids := FieldsAt(line, 0, IdSizes(version));
    if ids.None? || !IdsInRange(ids.value.texts) then UseOverrun
    else if ids.value.texts[0] != "f" then if NameFits(line, ids.value.end) then UsesNothing else UseOverrun
    else
      var rest := FieldsAt(line, ids.value.end, [PATH_MAX, 128, 32]);
      if rest.None? || !InInt(NumberOf(rest.value.texts[2])) then UseOverrun else Uses(rest.value.texts[1])
  }

  /** One round of the gc loop takes a line apart. */
  method ReadUse(version: int, line: string) returns (r: Use)
    ensures r == UseAt(version, line)
  {
    hide NumberOf, Octal, FieldsAt, InInt, NameFits;
    var ids := ReadFields(line, 0, IdSizes(version));
    if ids.None? { return UseOverrun; }
    var h := ids.value.texts;
    var ok, mode, uid, gid := ReadIds(h);
    if !ok { return UseOverrun; }
    if h[0] != "f" { return if NameFits(line, ids.value.end) then UsesNothing else UseOverrun; }
    var rest := ReadFields(line, ids.value.end, [PATH_MAX, 128, 32]);
    if rest.None? { return UseOverrun; }
    var size := Atoi(rest.value.texts[2]);
    if !InInt(size) { return UseOverrun; }
    return Uses(rest.value.texts[1]);
  }

  /** The fields before the name and the name are the fields up to it. */
  lemma {:induction false} FieldsSplit(line: string, at: nat, sizes: seq<nat>, last: nat)
    requires at <= |line|
    ensures var ids := FieldsAt(line, at, sizes);
            FieldsAt(line, at, sizes + [last])
            == if ids.None? then None else Prepend(ids.value.texts, FieldsAt(line, ids.value.end, [last]))
    decreases |sizes|
  {
    hide TokenAt, IsToken;
    if sizes == [] {
      assert sizes + [last] == [last];
      PrependNone(FieldsAt(line, at, [last]));
    } else {
      var t := TokenAt(line, at);
      assert (sizes + [last])[1..] == sizes[1..] + [last] && (sizes + [last])[0] == sizes[0];
      if t.Some? && |t.value.text| < sizes[0] {
        TokenBounds(line, at, t.value);
        FieldsSplit(line, t.value.next, sizes[1..], last);
        var ids := FieldsAt(line, t.value.next, sizes[1..]);
        if ids.Some? { PrependJoin([t.value.text], ids.value.texts, FieldsAt(line, ids.value.end, [last])); }
      }
    }
  }

  lemma PrependJoin(a: seq<string>, b: seq<string>, f: Option<Fields>)
    ensures Prepend(a, Prepend(b, f)) == Prepend(a + b, f)
  {
    if f.Some? { assert a + (b + f.value.texts) == a + b + f.value.texts; }
  }

  /** If all fields up to the name are there, gc finds the fields before it, and what follows the name. */
  lemma HeadSplit(version: int, line: string, more: seq<nat>)
    requires FieldsAt(line, 0, HeadSizes(version)).Some?
    ensures var h := FieldsAt(line, 0, HeadSizes(version)).value;
            var ids := FieldsAt(line, 0, IdSizes(version));
            && ids.Some? && h.texts == ids.value.texts + [h.texts[|h.texts| - 1]] && NameFits(line, ids.value.end)
            && FieldsAt(line, ids.value.end, [PATH_MAX] + more)
               == Prepend([h.texts[|h.texts| - 1]], FieldsAt(line, h.end, more))
  {
    FieldsSplit(line, 0, IdSizes(version), PATH_MAX);
    var ids := FieldsAt(line, 0, IdSizes(version)).value;
    NameSplit(line, ids.end, more);
  }

  lemma NameSplit(line: string, at: nat, more: seq<nat>)
    requires at <= |line| && FieldsAt(line, at, [PATH_MAX]).Some?
    ensures var name := FieldsAt(line, at, [PATH_MAX]).value;
            && NameFits(line, at) && |name.texts| == 1
            && FieldsAt(line, at, [PATH_MAX] + more) == Prepend(name.texts, FieldsAt(line, name.end, more))
  {
    var sizes := [PATH_MAX] + more;
    assert sizes[1..] == more && sizes[0] == PATH_MAX && [PATH_MAX][1..] == [];
    var t := TokenAt(line, at).value;
    assert FieldsAt(line, at, [PATH_MAX]) == Some(Fields([t.text] + [], t.next)) && [t.text] + [] == [t.text];
  }

  /** Whatever extraction reads, gc reads alike; it also takes lines that extraction does not. */
  lemma UseOfRow(version: int, line: string)
    ensures RowAt(version, line).Row? ==>
              var b := RowAt(version, line).item.body;
              UseAt(version, line) == if b.FileBody? then Uses(b.key) else UsesNothing
    ensures RowAt(version, line).UnknownType? ==> UseAt(version, line) == UsesNothing
  {
    hide FieldsAt, NumberOf, Octal, NameFits;
    if !RowAt(version, line).Overrun? {
      HeadSplit(version, line, [128, 32]);
      assert [PATH_MAX] + [128, 32] == [PATH_MAX, 128, 32];
    }
  }
}
