/**
 * The Java class-file format as src/javabci.c handles it (JVM Specification SE14, sections 4.1, 4.4,
 * 4.6 and 4.7): what a class file holds, how it is laid out in bytes, and what each edit makes of it.
 */
module ClassFormat {
  import opened Bytes

  const MAGIC: seq<Byte> := [0xca, 0xfe, 0xba, 0xbe]

  const TAG_UTF8: Byte := 1
  const TAG_LONG: Byte := 5
  const TAG_DOUBLE: Byte := 6
  const TAG_STRING: Byte := 8
  const TAG_METHODREF: Byte := 10
  const TAG_NAME_AND_TYPE: Byte := 12

  /**
   * Pool, field, method and attribute entries are kept as the bytes they occupy. Pool index k (counted
   * from 1) is pool[k - 1]; the unusable slot behind a Long or Double is empty.
   */
  datatype ClassFile = ClassFile(
    minor: nat, major: nat, pool: seq<seq<Byte>>, access: nat, thisClass: nat, superClass: nat,
    interfaces: seq<Byte>, fields: seq<seq<Byte>>, methods: seq<seq<Byte>>, attributes: seq<seq<Byte>>)

  // ---------------------------------------------------------------- constant-pool entries

  /** cp_tag_size */
  function TagSize(tag: Byte): nat {
    if tag in {3, 4, 9, 10, 11, 12, 17, 18} then 5
    else if tag in {5, 6} then 9
    else if tag in {7, 8, 16, 19, 20} then 3
    else if tag == 15 then 4
    else 0
  }

  /** javaGetTagLength: the length of the entry that memory begins with, computed in 16 bits. */
  function TagLength(mem: seq<Byte>): nat
    requires |mem| >= 1 && (mem[0] == TAG_UTF8 ==> |mem| >= 3)
  {
    if mem[0] == TAG_UTF8 then (U16(mem[1], mem[2]) + 3) % 65536 else TagSize(mem[0])
  }

  predicate Entry(e: seq<Byte>) {
    |e| >= 1 && if e[0] == TAG_UTF8 then |e| >= 3 && |e| == U16(e[1], e[2]) + 3 else |e| == TagSize(e[0])
  }

  predicate Wide(e: seq<Byte>) {
    |e| >= 1 && (e[0] == TAG_LONG || e[0] == TAG_DOUBLE)
  }

  /** The 16-bit length is right for every entry but a Utf8 entry of 65533 bytes of text or more. */
  lemma TagLengthExact(e: seq<Byte>)
    requires Entry(e)
    ensures TagLength(e) == |e| <==> !(e[0] == TAG_UTF8 && U16(e[1], e[2]) >= 65533)
  {
    if e[0] == TAG_UTF8 && U16(e[1], e[2]) >= 65533 {
      assert (U16(e[1], e[2]) + 3) % 65536 == U16(e[1], e[2]) + 3 - 65536;
    }
  }

  /** The constants of section 4.4 of the JVM Specification SE14, Utf8 apart, with their items in order. */
  datatype Constant =
    | Integer(bits: nat)
    | Float(bits: nat)
    | Long(high: nat, low: nat)
    | Double(high: nat, low: nat)
    | Class(name: nat)
    | String(text: nat)
    | Fieldref(class_: nat, nameAndType: nat)
    | Methodref(class_: nat, nameAndType: nat)
    | InterfaceMethodref(class_: nat, nameAndType: nat)
    | NameAndTypeOf(name: nat, descriptor: nat)
    | MethodHandle(kind: Byte, reference: nat)
    | MethodType(descriptor: nat)
    | Dynamic(bootstrap: nat, nameAndType: nat)
    | InvokeDynamic(bootstrap: nat, nameAndType: nat)
    | Module(name: nat)
    | Package(name: nat)

  function PrintConstant(x: Constant): seq<Byte> {
    match x
    case Integer(bits) => [3] + Be32(bits)
    case Float(bits) => [4] + Be32(bits)
    case Long(high, low) => [5] + Be32(high) + Be32(low)
    case Double(high, low) => [6] + Be32(high) + Be32(low)
    case Class(name) => [7] + Be16(name)
    case String(text) => [8] + Be16(text)
    case Fieldref(c, n) => [9] + Be16(c) + Be16(n)
    case Methodref(c, n) => [10] + Be16(c) + Be16(n)
    case InterfaceMethodref(c, n) => [11] + Be16(c) + Be16(n)
    case NameAndTypeOf(n, d) => [12] + Be16(n) + Be16(d)
    case MethodHandle(kind, r) => [15, kind] + Be16(r)
    case MethodType(d) => [16] + Be16(d)
    case Dynamic(b, n) => [17] + Be16(b) + Be16(n)
    case InvokeDynamic(b, n) => [18] + Be16(b) + Be16(n)
    case Module(n) => [19] + Be16(n)
    case Package(n) => [20] + Be16(n)
  }

  /** Whatever follows it, every constant is measured at its own length; a Long or a Double takes two slots. */
  lemma ConstantMeasured(x: Constant, t: seq<Byte>)
    ensures Entry(PrintConstant(x)) && TagLength(PrintConstant(x) + t) == |PrintConstant(x)|
    ensures Wide(PrintConstant(x)) <==> x.Long? || x.Double?
  {
    hide Be16, Be32;
    var e := PrintConstant(x);
    assert |e| >= 1 && (e + t)[0] == e[0];
  }

  /** Entries the code can measure, each Long or Double followed by its unusable slot. */
  predicate PoolOk(pool: seq<seq<Byte>>) {
    pool == [] ||
    (Entry(pool[0]) && |pool[0]| < 65536
     && if Wide(pool[0]) then |pool| >= 2 && pool[1] == [] && PoolOk(pool[2..]) else PoolOk(pool[1..]))
  }

  // ---------------------------------------------------------------- fields, methods, attributes

  function U16At(s: seq<Byte>, i: nat): nat
    requires i + 2 <= |s|
  {
    U16(s[i], s[i + 1])
  }

  function U32At(s: seq<Byte>, i: nat): nat
    requires i + 4 <= |s|
  {
    U32(s[i], s[i + 1], s[i + 2], s[i + 3])
  }

  /** getAttributesLength from offset off: n attributes on. */
  function AttrsEnd(mem: seq<Byte>, off: nat, n: nat): nat
    decreases n
  {
    if n == 0 || off + 6 > |mem| then off else AttrsEnd(mem, off + 6 + U32At(mem, off + 2), n - 1)
  }

  /** javaGetMethodLength: the length of the field or method that memory begins with. */
  function MemberLength(mem: seq<Byte>): nat
    requires |mem| >= 8
  {
    AttrsEnd(mem, 8, U16At(mem, 6))
  }

  /** From offset off, exactly n attributes fill the rest of m. */
  predicate AttrsFill(m: seq<Byte>, off: nat, n: nat)
    decreases n
  {
    if n == 0 then off == |m| else off + 6 <= |m| && AttrsFill(m, off + 6 + U32At(m, off + 2), n - 1)
  }

  predicate Member(m: seq<Byte>) {
    |m| >= 8 && AttrsFill(m, 8, U16At(m, 6))
  }

  predicate Attribute(a: seq<Byte>) {
    |a| >= 6 && |a| == 6 + U32At(a, 2)
  }

  // ---------------------------------------------------------------- the file as bytes

  function Print(c: ClassFile): seq<Byte> { MAGIC + PrintMinor(c) }
  function PrintMinor(c: ClassFile): seq<Byte> { Be16(c.minor) + PrintMajor(c) }
  function PrintMajor(c: ClassFile): seq<Byte> { Be16(c.major) + PrintPool(c) }
  function PrintPool(c: ClassFile): seq<Byte> { Be16(|c.pool| + 1) + (Concat(c.pool) + PrintAccess(c)) }
  function PrintAccess(c: ClassFile): seq<Byte> { Be16(c.access) + PrintThis(c) }
  function PrintThis(c: ClassFile): seq<Byte> { Be16(c.thisClass) + PrintSuper(c) }
  function PrintSuper(c: ClassFile): seq<Byte> { Be16(c.superClass) + PrintInterfaces(c) }
  function PrintInterfaces(c: ClassFile): seq<Byte> { Be16(|c.interfaces| / 2) + (c.interfaces + PrintFields(c)) }
  function PrintFields(c: ClassFile): seq<Byte> { Be16(|c.fields|) + (Concat(c.fields) + PrintMethods(c)) }
  function PrintMethods(c: ClassFile): seq<Byte> { Be16(|c.methods|) + (Concat(c.methods) + PrintAttributes(c)) }
  function PrintAttributes(c: ClassFile): seq<Byte> { Be16(|c.attributes|) + (Concat(c.attributes) + []) }

  lemma PrintSize(c: ClassFile)
    ensures |Print(c)| == 24 + |Concat(c.pool)| + |c.interfaces| + |Concat(c.fields)| + |Concat(c.methods)|
                          + |Concat(c.attributes)|
  {
  }

  predicate Shape(c: ClassFile) {
    && PoolOk(c.pool) && |c.interfaces| % 2 == 0
    && (forall f | f in c.fields :: Member(f))
    && (forall m | m in c.methods :: Member(m))
    && (forall a | a in c.attributes :: Attribute(a))
  }

  /** Every count and index fits the 16 bits it is stored in. */
  predicate CountsFit(c: ClassFile) {
    && c.minor < 65536 && c.major < 65536 && c.access < 65536 && c.thisClass < 65536 && c.superClass < 65536
    && |c.pool| + 1 < 65536 && |c.interfaces| / 2 < 65536
    && |c.fields| < 65536 && |c.methods| < 65536 && |c.attributes| < 65536
  }

  /** And the file fits the 32 bits of its length. */
  predicate Bounded(c: ClassFile) {
    CountsFit(c) && |Print(c)| < 4294967296
  }

  predicate WellFormed(c: ClassFile) {
    Shape(c) && Bounded(c)
  }

  // ---------------------------------------------------------------- entries in front of other bytes

  lemma TagLengthLocal(e: seq<Byte>, t: seq<Byte>, s: seq<Byte>)
    requires Entry(e) && |e| < 65536 && s == e + t
    ensures TagLength(s) == |e|
  {
    assert s[0] == e[0];
    if e[0] == TAG_UTF8 { assert s[1] == e[1] && s[2] == e[2]; }
  }

  lemma {:induction false} AttrsEndLocal(m: seq<Byte>, t: seq<Byte>, s: seq<Byte>, off: nat, n: nat)
    requires AttrsFill(m, off, n) && s == m + t
    ensures AttrsEnd(s, off, n) == |m|
    decreases n
  {
    if n > 0 {
      assert U32At(s, off + 2) == U32At(m, off + 2);
      AttrsEndLocal(m, t, s, off + 6 + U32At(m, off + 2), n - 1);
    }
  }

  lemma {:induction false} MemberLengthLocal(m: seq<Byte>, t: seq<Byte>, s: seq<Byte>)
    requires Member(m) && s == m + t
    ensures |s| >= 8 && MemberLength(s) == |m|
  {
    assert U16At(s, 6) == U16At(m, 6);
    AttrsEndLocal(m, t, s, 8, U16At(m, 6));
  }

  lemma ConcatUpdateSize(s: seq<seq<Byte>>, i: nat, e: seq<Byte>)
    requires i < |s|
    ensures |Concat(s[i := e])| + |s[i]| == |Concat(s)| + |e|
  {
    var a, b, s' := s[..i], s[i + 1..], s[i := e];
    ConcatAppend(a, [s[i]] + b, s);
    ConcatAppend([s[i]], b, [s[i]] + b);
    ConcatAppend(a, [e] + b, s');
    ConcatAppend([e], b, [e] + b);
    ConcatOne(e);
    ConcatOne(s[i]);
  }

  // ---------------------------------------------------------------- edits

  function Utf8(text: seq<Byte>): seq<Byte> {
    [TAG_UTF8] + Be16(|text|) + text
  }

  function Reference(tag: Byte, a: nat, b: nat): seq<Byte> {
    [tag] + Be16(a) + Be16(b)
  }

  /** A string the C functions can take and a Utf8 entry can hold. */
  predicate Text(s: seq<Byte>) {
    |s| <= 65532 && 0 !in s
  }

  function AddTag(c: ClassFile, e: seq<Byte>): ClassFile {
    c.(pool := c.pool + [e])
  }

  /** The index addTag gives the next entry. */
  function NextIndex(c: ClassFile): nat {
    |c.pool| + 1
  }

  function Renamed(m: seq<Byte>, nameIndex: nat): seq<Byte>
    requires |m| >= 8
  {
    m[..2] + Be16(nameIndex) + m[4..]
  }

  /** The first byte of access flags or-ed with ACC_NATIVE, 0x0100. */
  function OrNative(b: Byte): Byte {
    if b % 2 == 1 then b else b + 1
  }

  /** The method with ACC_NATIVE set and no attributes. */
  function Native(m: seq<Byte>): (r: seq<Byte>)
    requires |m| >= 8
    ensures |r| == 8
  {
    [OrNative(m[0]), m[1], m[2], m[3], m[4], m[5], 0, 0]
  }

  function CopyMethod(c: ClassFile, m: seq<Byte>, name: seq<Byte>): ClassFile
    requires |m| >= 8
  {
    AddTag(c, Utf8(name)).(methods := c.methods + [Renamed(m, NextIndex(c))])
  }

  function ConvertToNative(c: ClassFile, i: nat): ClassFile
    requires i < |c.methods| && |c.methods[i]| >= 8
  {
    c.(methods := c.methods[i := Native(c.methods[i])])
  }

  /** The fields of a Code attribute in front of the code: name, length, stack, locals, code length. */
  function CodeHead(nameIndex: nat, maxStack: nat, maxLocals: nat, codeLen: nat): (h: seq<Byte>)
    ensures |h| == 14
  {
    var name, stack, locals := Be16(nameIndex), Be16(maxStack), Be16(maxLocals);
    var len, n := Be32(12 + codeLen), Be32(codeLen);
    [name[0], name[1], len[0], len[1], len[2], len[3], stack[0], stack[1], locals[0], locals[1], n[0], n[1], n[2], n[3]]
  }

  /** A Code attribute with an empty exception table and no attributes of its own. */
  function CodeAttribute(nameIndex: nat, maxStack: nat, maxLocals: nat, code: seq<Byte>): seq<Byte> {
    CodeHead(nameIndex, maxStack, maxLocals, |code|) + (code + [0, 0, 0, 0])
  }

  function MemberInfo(flags: nat, nameIndex: nat, descIndex: nat, attrCount: nat): (m: seq<Byte>)
    ensures |m| == 8
  {
    var f, n, d, a := Be16(flags), Be16(nameIndex), Be16(descIndex), Be16(attrCount);
    [f[0], f[1], n[0], n[1], d[0], d[1], a[0], a[1]]
  }

  lemma MemberInfoWords(flags: nat, nameIndex: nat, descIndex: nat, attrCount: nat)
    ensures var m := MemberInfo(flags, nameIndex, descIndex, attrCount);
            && U16At(m, 0) == flags % 65536 && U16At(m, 2) == nameIndex % 65536
            && U16At(m, 4) == descIndex % 65536 && U16At(m, 6) == attrCount % 65536
  {
    hide Be16;
    Be16Value(flags);
    Be16Value(nameIndex);
    Be16Value(descIndex);
    Be16Value(attrCount);
  }

  // "Code"
  const CODE: seq<Byte> := [67, 111, 100, 101]

  /** The code argument of javaAddMethod, which may be NULL. */
  datatype CodeArg = Absent | Present(bytes: seq<Byte>)

  datatype Edit =
    | NameAndType(name: seq<Byte>, desc: seq<Byte>)
    | MethodRef(classIndex: nat, nameAndTypeIndex: nat)
    | Copy(source: seq<Byte>, name: seq<Byte>)
    | ToNative(index: nat)
    | NewMethod(name: seq<Byte>, desc: seq<Byte>, flags: nat)
    | NewCode(name: seq<Byte>, desc: seq<Byte>, flags: nat, maxStack: nat, maxLocals: nat, code: seq<Byte>)
    | NewField(name: seq<Byte>, desc: seq<Byte>, flags: nat)

  /** What the source asks of its callers: real strings, real methods, an index in range. */
  predicate Applicable(c: ClassFile, e: Edit) {
    match e
    case NameAndType(name, desc) => Text(name) && Text(desc)
    case MethodRef(_, _) => true
    case Copy(m, name) => Member(m) && Text(name)
    case ToNative(i) => i < |c.methods|
    case NewMethod(name, desc, _) => Text(name) && Text(desc)
    case NewCode(name, desc, _, _, _, code) => Text(name) && Text(desc) && 12 + |code| < 4294967296
    case NewField(name, desc, _) => Text(name) && Text(desc)
  }

  function AddTags(c: ClassFile, tags: seq<seq<Byte>>): ClassFile {
    c.(pool := c.pool + tags)
  }

  /**
   * javaAddNameAndTypeTag, javaAddMethodRefTag, javaCopyMethod, javaConvertMethodToNative, javaAddMethod, javaAddField
   */
  function Apply(c: ClassFile, e: Edit): ClassFile
    requires Shape(c) && Applicable(c, e)
  {
    var k := NextIndex(c);
    match e
    case NameAndType(name, desc) => AddTags(c, [Utf8(name), Utf8(desc), Reference(TAG_NAME_AND_TYPE, k, k + 1)])
    case MethodRef(ci, nt) => AddTags(c, [Reference(TAG_METHODREF, ci, nt)])
    case Copy(m, name) => CopyMethod(c, m, name)
    case ToNative(i) => assert c.methods[i] in c.methods; ConvertToNative(c, i)
    case NewMethod(name, desc, flags) => MethodAdded(c, name, desc, flags, 0, 0, Absent)
    case NewCode(name, desc, flags, ms, ml, code) => MethodAdded(c, name, desc, flags, ms, ml, Present(code))
    case NewField(name, desc, flags) =>
      AddTags(c, [Utf8(name), Utf8(desc)]).(fields := c.fields + [MemberInfo(flags, k, k + 1, 0)])
  }

  /** javaAddMethod, for code of any size. */
  function MethodAdded(c: ClassFile, name: seq<Byte>, desc: seq<Byte>, flags: nat, ms: nat, ml: nat, code: CodeArg)
    : ClassFile
  {
    var k := NextIndex(c);
    match code
    case Absent => AddTags(c, [Utf8(name), Utf8(desc)]).(methods := c.methods + [MemberInfo(flags, k, k + 1, 0)])
    case Present(bytes) =>
      AddTags(c, [Utf8(name), Utf8(desc), Utf8(CODE)])
        .(methods := c.methods + [MemberInfo(flags, k, k + 1, 1) + CodeAttribute(k + 2, ms, ml, bytes)])
  }

  /** Slots of the constant pool and of the field and method tables. */
  datatype Cost = Cost(pool: nat, fields: nat, methods: nat)

  /** The slots an edit takes. */
  function CostOf(e: Edit): Cost {
    match e
    case NameAndType(_, _) => Cost(3, 0, 0)
    case MethodRef(_, _) => Cost(1, 0, 0)
    case Copy(_, _) => Cost(1, 0, 1)
    case ToNative(_) => Cost(0, 0, 0)
    case NewMethod(_, _, _) => Cost(2, 0, 1)
    case NewCode(_, _, _, _, _, _) => Cost(3, 0, 1)
    case NewField(_, _, _) => Cost(2, 1, 0)
  }

  /** What javaAddMethod adds to info->length. */
  function MethodGrowth(name: seq<Byte>, desc: seq<Byte>, code: CodeArg): nat {
    |name| + 3 + |desc| + 3 + if code.Absent? then 8 else 7 + (8 + 2 + 4 + (12 + |code.bytes|))
  }

  /** The amount an edit adds to info->length. */
  function Growth(c: ClassFile, e: Edit): int
    requires Applicable(c, e)
  {
    match e
    case NameAndType(name, desc) => |name| + 3 + |desc| + 3 + 5
    case MethodRef(_, _) => 5
    case Copy(m, name) => |name| + 3 + |m|
    case ToNative(i) => 8 - |c.methods[i]|
    case NewMethod(name, desc, _) => MethodGrowth(name, desc, Absent)
    case NewCode(name, desc, _, _, _, code) => MethodGrowth(name, desc, Present(code))
    case NewField(name, desc, _) => |name| + 3 + |desc| + 3 + 8
  }

  /** A plain (one-slot) entry. */
  predicate Plain(e: seq<Byte>) {
    Entry(e) && |e| < 65536 && !Wide(e)
  }

  lemma Utf8Plain(text: seq<Byte>)
    requires |text| <= 65532
    ensures Plain(Utf8(text)) && |Utf8(text)| == |text| + 3
  {
    var e := Utf8(text);
    assert e[0] == TAG_UTF8 && e[1] == Be16(|text|)[0] && e[2] == Be16(|text|)[1];
  }

  /** A text is read back from the entry made of it. */
  lemma Utf8Reads(text: seq<Byte>)
    requires |text| < 65536
    ensures var e := Utf8(text); |e| == |text| + 3 && e[0] == TAG_UTF8 && U16At(e, 1) == |text| && e[3..] == text
  {
    hide Be16;
    Be16Value(|text|);
  }

  lemma ReferenceWords(tag: Byte, a: nat, b: nat)
    ensures var e := Reference(tag, a, b);
            |e| == 5 && e[0] == tag && U16At(e, 1) == a % 65536 && U16At(e, 3) == b % 65536
  {
    hide Be16;
    Be16Value(a);
    Be16Value(b);
  }

  lemma ReferencePlain(tag: Byte, a: nat, b: nat)
    requires tag == TAG_METHODREF || tag == TAG_NAME_AND_TYPE
    ensures Plain(Reference(tag, a, b)) && |Reference(tag, a, b)| == 5
  {
  }

  lemma {:induction false} PoolOkSnoc(pool: seq<seq<Byte>>, e: seq<Byte>, pool': seq<seq<Byte>>)
    requires PoolOk(pool) && Plain(e) && pool' == pool + [e]
    ensures PoolOk(pool')
    decreases |pool|
  {
    if pool == [] { assert pool'[1..] == []; }
    else {
      assert pool'[0] == pool[0];
      if Wide(pool[0]) {
        assert pool'[2..] == pool[2..] + [e];
        PoolOkSnoc(pool[2..], e, pool'[2..]);
      } else {
        assert pool'[1..] == pool[1..] + [e];
        PoolOkSnoc(pool[1..], e, pool'[1..]);
      }
    }
  }

  lemma {:induction false} PoolOkAppend(pool: seq<seq<Byte>>, tags: seq<seq<Byte>>)
    requires PoolOk(pool) && forall t | t in tags :: Plain(t)
    ensures PoolOk(pool + tags) && |Concat(pool + tags)| == |Concat(pool)| + |Concat(tags)|
    decreases |tags|
  {
    ConcatAppend(pool, tags, pool + tags);
    if tags == [] { assert pool + tags == pool; }
    else {
      PoolOkSnoc(pool, tags[0], pool + [tags[0]]);
      PoolOkAppend(pool + [tags[0]], tags[1..]);
      assert pool + tags == pool + [tags[0]] + tags[1..];
    }
  }

  lemma {:induction false} RenamedMember(m: seq<Byte>, k: nat)
    requires Member(m)
    ensures var r := Renamed(m, k);
            && Member(r) && |r| == |m| && r[..2] == m[..2] && r[4..] == m[4..] && U16At(r, 2) == k % 65536
  {
    var r := Renamed(m, k);
    assert forall i | 4 <= i < |m| :: r[i] == m[i];
    AttrsFillSame(m, r, 8, U16At(m, 6));
  }

  lemma {:induction false} AttrsFillSame(m: seq<Byte>, r: seq<Byte>, off: nat, n: nat)
    requires |r| == |m| && off >= 8 && (forall i | 4 <= i < |m| :: r[i] == m[i]) && AttrsFill(m, off, n)
    ensures AttrsFill(r, off, n)
    decreases n
  {
    if n > 0 {
      assert U32At(r, off + 2) == U32At(m, off + 2);
      AttrsFillSame(m, r, off + 6 + U32At(m, off + 2), n - 1);
    }
  }

  lemma {:induction false} NoAttributes(r: seq<Byte>)
    requires |r| == 8 && U16At(r, 6) == 0
    ensures Member(r)
  {
    assert AttrsFill(r, 8, 0);
  }

  lemma NativeCount(m: seq<Byte>)
    requires |m| >= 8
    ensures U16At(Native(m), 6) == 0
  {
  }

  lemma NativeNames(m: seq<Byte>)
    requires |m| >= 8
    ensures U16At(Native(m), 2) == U16At(m, 2) && U16At(Native(m), 4) == U16At(m, 4)
    ensures U16At(Native(m), 0) == U16At(m, 0) + if m[0] % 2 == 1 then 0 else 256
  {
  }

  /** A new method is one that can be read again if and only if the length of its Code attribute fits 32 bits. */
  lemma {:induction false} CodeMember(flags: nat, k: nat, ms: nat, ml: nat, code: seq<Byte>)
    ensures var m := MemberInfo(flags, k, k + 1, 1) + CodeAttribute(k + 2, ms, ml, code);
            |m| == 26 + |code| && (Member(m) <==> 12 + |code| < 4294967296)
  {
    hide MemberInfo, CodeAttribute;
    MemberInfoWords(flags, k, k + 1, 1);
    CodeAttributeLength(k + 2, ms, ml, code);
    OneAttribute(MemberInfo(flags, k, k + 1, 1), CodeAttribute(k + 2, ms, ml, code));
  }

  /** The items of a Code attribute in front of the code, as section 4.7.3 of the JVM Specification SE14 has them. */
  lemma CodeHeadWords(nameIndex: nat, ms: nat, ml: nat, codeLen: nat)
    ensures var h := CodeHead(nameIndex, ms, ml, codeLen);
            && U16At(h, 0) == nameIndex % 65536 && U32At(h, 2) == (12 + codeLen) % 4294967296
            && U16At(h, 6) == ms % 65536 && U16At(h, 8) == ml % 65536 && U32At(h, 10) == codeLen % 4294967296
  {
    hide Be16, Be32;
    Be16Value(nameIndex);
    Be16Value(ms);
    Be16Value(ml);
    Be32Value(12 + codeLen);
    Be32Value(codeLen);
  }

  lemma CodeAttributeLength(nameIndex: nat, ms: nat, ml: nat, code: seq<Byte>)
    ensures |CodeAttribute(nameIndex, ms, ml, code)| == 18 + |code|
    ensures Attribute(CodeAttribute(nameIndex, ms, ml, code)) <==> 12 + |code| < 4294967296
  {
    hide CodeHead, U16At, U32At;
    var attr, head := CodeAttribute(nameIndex, ms, ml, code), CodeHead(nameIndex, ms, ml, |code|);
    CodeHeadWords(nameIndex, ms, ml, |code|);
    WordsInFront(head, code + [0, 0, 0, 0], attr);
  }

  lemma {:induction false} OneAttribute(info: seq<Byte>, attr: seq<Byte>)
    requires |info| == 8 && U16At(info, 6) == 1 && |attr| >= 6
    ensures Member(info + attr) <==> Attribute(attr)
  {
    var m := info + attr;
    var end := 14 + U32At(attr, 2);
    assert U16At(m, 6) == 1 && U32At(m, 10) == U32At(attr, 2);
    assert AttrsFill(m, end, 0) <==> end == |m|;
  }

  lemma {:induction false} InfoMember(flags: nat, k: nat)
    ensures Member(MemberInfo(flags, k, k + 1, 0))
  {
    hide MemberInfo;
    MemberInfoWords(flags, k, k + 1, 0);
    NoAttributes(MemberInfo(flags, k, k + 1, 0));
  }

  // ---------------------------------------------------------------- what every edit keeps

  lemma AddTagsKeep(c: ClassFile, tags: seq<seq<Byte>>)
    requires Shape(c) && forall t | t in tags :: Plain(t)
    ensures var c' := AddTags(c, tags);
            Shape(c') && c.pool <= c'.pool && |Concat(c'.pool)| == |Concat(c.pool)| + |Concat(tags)|
  {
    PoolOkAppend(c.pool, tags);
  }

  lemma ConcatSnocSize(s: seq<seq<Byte>>, m: seq<Byte>)
    ensures |Concat(s + [m])| == |Concat(s)| + |m|
  {
    ConcatAppend(s, [m], s + [m]);
    ConcatOne(m);
  }

  lemma TwoTexts(name: seq<Byte>, desc: seq<Byte>)
    requires Text(name) && Text(desc)
    ensures forall t | t in [Utf8(name), Utf8(desc)] :: Plain(t)
    ensures |Concat([Utf8(name), Utf8(desc)])| == |name| + 3 + |desc| + 3
  {
    Utf8Plain(name);
    Utf8Plain(desc);
    ConcatOne(Utf8(name));
    ConcatSnocSize([Utf8(name)], Utf8(desc));
    assert [Utf8(name)] + [Utf8(desc)] == [Utf8(name), Utf8(desc)];
  }

  lemma ThreeTags(name: seq<Byte>, desc: seq<Byte>, e: seq<Byte>)
    requires Text(name) && Text(desc) && Plain(e)
    ensures forall t | t in [Utf8(name), Utf8(desc), e] :: Plain(t)
    ensures |Concat([Utf8(name), Utf8(desc), e])| == |name| + 3 + |desc| + 3 + |e|
  {
    TwoTexts(name, desc);
    ConcatSnocSize([Utf8(name), Utf8(desc)], e);
    assert [Utf8(name), Utf8(desc)] + [e] == [Utf8(name), Utf8(desc), e];
  }

  /** What every edit keeps, and what it adds. */
  ghost predicate Keeps(c: ClassFile, c': ClassFile, growth: int, cost: Cost) {
    && Shape(c')
    && c.pool <= c'.pool && |c'.pool| == |c.pool| + cost.pool
    && |Print(c')| == |Print(c)| + growth
    && c'.(pool := c.pool, fields := c.fields, methods := c.methods) == c
    && c.fields <= c'.fields && |c'.fields| == |c.fields| + cost.fields
    && |c'.methods| == |c.methods| + cost.methods
  }

  lemma PoolEditKeeps(c: ClassFile, e: Edit)
    requires Shape(c) && Applicable(c, e) && (e.NameAndType? || e.MethodRef?)
    ensures Keeps(c, Apply(c, e), Growth(c, e), CostOf(e))
  {
    var k := NextIndex(c);
    PrintSize(c);
    PrintSize(Apply(c, e));
    match e {
      case NameAndType(name, desc) =>
        var tag := Reference(TAG_NAME_AND_TYPE, k, k + 1);
        ReferencePlain(TAG_NAME_AND_TYPE, k, k + 1);
        ThreeTags(name, desc, tag);
        AddTagsKeep(c, [Utf8(name), Utf8(desc), tag]);
      case MethodRef(ci, nt) =>
        ReferencePlain(TAG_METHODREF, ci, nt);
        ConcatOne(Reference(TAG_METHODREF, ci, nt));
        AddTagsKeep(c, [Reference(TAG_METHODREF, ci, nt)]);
    }
  }

  lemma MethodEditKeeps(c: ClassFile, tags: seq<seq<Byte>>, m: seq<Byte>, c': ClassFile)
    requires Shape(c) && (forall t | t in tags :: Plain(t)) && Member(m)
    requires c' == AddTags(c, tags).(methods := c.methods + [m])
    ensures Keeps(c, c', |Concat(tags)| + |m|, Cost(|tags|, 0, 1))
  {
    AddTagsKeep(c, tags);
    ConcatSnocSize(c.methods, m);
    PrintSize(c);
    PrintSize(c');
  }

  lemma FieldEditKeeps(c: ClassFile, tags: seq<seq<Byte>>, m: seq<Byte>, c': ClassFile)
    requires Shape(c) && (forall t | t in tags :: Plain(t)) && Member(m)
    requires c' == AddTags(c, tags).(fields := c.fields + [m])
    ensures Keeps(c, c', |Concat(tags)| + |m|, Cost(|tags|, 1, 0))
  {
    AddTagsKeep(c, tags);
    ConcatSnocSize(c.fields, m);
    PrintSize(c);
    PrintSize(c');
  }

  lemma CopyKeeps(c: ClassFile, m: seq<Byte>, name: seq<Byte>)
    requires Shape(c) && Member(m) && Text(name)
    ensures Keeps(c, CopyMethod(c, m, name), |name| + 3 + |m|, Cost(1, 0, 1))
  {
    RenamedMember(m, NextIndex(c));
    Utf8Plain(name);
    ConcatOne(Utf8(name));
    MethodEditKeeps(c, [Utf8(name)], Renamed(m, NextIndex(c)), CopyMethod(c, m, name));
  }

  lemma NewMethodKeeps(c: ClassFile, e: Edit)
    requires Shape(c) && Applicable(c, e) && e.NewMethod?
    ensures Keeps(c, Apply(c, e), Growth(c, e), CostOf(e))
  {
    var k := NextIndex(c);
    TwoTexts(e.name, e.desc);
    InfoMember(e.flags, k);
    MethodEditKeeps(c, [Utf8(e.name), Utf8(e.desc)], MemberInfo(e.flags, k, k + 1, 0), Apply(c, e));
  }

  lemma NewCodeKeeps(c: ClassFile, e: Edit)
    requires Shape(c) && Applicable(c, e) && e.NewCode?
    ensures Keeps(c, Apply(c, e), Growth(c, e), CostOf(e))
  {
    hide Be16, Be32, CodeAttribute, MemberInfo, Utf8;
    var k := NextIndex(c);
    Utf8Plain(CODE);
    ThreeTags(e.name, e.desc, Utf8(CODE));
    CodeMember(e.flags, k, e.maxStack, e.maxLocals, e.code);
    var m := MemberInfo(e.flags, k, k + 1, 1) + CodeAttribute(k + 2, e.maxStack, e.maxLocals, e.code);
    MethodEditKeeps(c, [Utf8(e.name), Utf8(e.desc), Utf8(CODE)], m, Apply(c, e));
  }

  lemma NewFieldKeeps(c: ClassFile, e: Edit)
    requires Shape(c) && Applicable(c, e) && e.NewField?
    ensures Keeps(c, Apply(c, e), Growth(c, e), CostOf(e))
  {
    var k := NextIndex(c);
    TwoTexts(e.name, e.desc);
    InfoMember(e.flags, k);
    FieldEditKeeps(c, [Utf8(e.name), Utf8(e.desc)], MemberInfo(e.flags, k, k + 1, 0), Apply(c, e));
  }

  lemma NativeEditKeeps(c: ClassFile, i: nat)
    requires Shape(c) && i < |c.methods|
    ensures Member(c.methods[i]) && Keeps(c, ConvertToNative(c, i), 8 - |c.methods[i]|, Cost(0, 0, 0))
  {
    assert c.methods[i] in c.methods;
    NativeCount(c.methods[i]);
    NoAttributes(Native(c.methods[i]));
    ConcatUpdateSize(c.methods, i, Native(c.methods[i]));
    PrintSize(c);
    PrintSize(ConvertToNative(c, i));
  }

  /**
   * Every edit leaves a class file of the right shape, in which each earlier pool index still stands for
   * the same entry, and whose size has grown by exactly what the edit adds to info->length.
   */
  lemma EditKeeps(c: ClassFile, e: Edit)
    requires Shape(c) && Applicable(c, e)
    ensures Keeps(c, Apply(c, e), Growth(c, e), CostOf(e))
  {
    match e {
      case Copy(m, name) => CopyKeeps(c, m, name);
      case ToNative(i) => NativeEditKeeps(c, i);
      case NewMethod(_, _, _) => NewMethodKeeps(c, e);
      case NewCode(_, _, _, _, _, _) => NewCodeKeeps(c, e);
      case NewField(_, _, _) => NewFieldKeeps(c, e);
      case _ => PoolEditKeeps(c, e);
    }
  }

  // ---------------------------------------------------------------- any sequence of edits

  ghost predicate AllApplicable(c: ClassFile, es: seq<Edit>)
    requires Shape(c)
    decreases |es|
  {
    es == [] || (Applicable(c, es[0]) && (EditKeeps(c, es[0]); AllApplicable(Apply(c, es[0]), es[1..])))
  }

  ghost function ApplyAll(c: ClassFile, es: seq<Edit>): ClassFile
    requires Shape(c) && AllApplicable(c, es)
    decreases |es|
  {
    if es == [] then c else EditKeeps(c, es[0]); ApplyAll(Apply(c, es[0]), es[1..])
  }

  ghost function TotalGrowth(c: ClassFile, es: seq<Edit>): int
    requires Shape(c) && AllApplicable(c, es)
    decreases |es|
  {
    if es == [] then 0 else EditKeeps(c, es[0]); Growth(c, es[0]) + TotalGrowth(Apply(c, es[0]), es[1..])
  }

  function TotalCost(es: seq<Edit>): Cost {
    if es == [] then Cost(0, 0, 0)
    else
      var first, rest := CostOf(es[0]), TotalCost(es[1..]);
      Cost(first.pool + rest.pool, first.fields + rest.fields, first.methods + rest.methods)
  }

  /** The same over any sequence of edits: length bookkeeping is exact and pool indices stay valid. */
  lemma {:induction false} EditsKeep(c: ClassFile, es: seq<Edit>)
    requires Shape(c) && AllApplicable(c, es)
    ensures var c', cost := ApplyAll(c, es), TotalCost(es);
            && Shape(c') && c.pool <= c'.pool && |c'.pool| == |c.pool| + cost.pool
            && |Print(c')| == |Print(c)| + TotalGrowth(c, es)
            && |c'.fields| == |c.fields| + cost.fields && |c'.methods| == |c.methods| + cost.methods
            && c'.(pool := c.pool, fields := c.fields, methods := c.methods) == c
    decreases |es|
  {
    if es != [] {
      EditKeeps(c, es[0]);
      EditsKeep(Apply(c, es[0]), es[1..]);
    }
  }

  /** Counts that are left inside their 16 bits by so many more entries. */
  predicate CountsLeft(c: ClassFile, cost: Cost) {
    |c.pool| + cost.pool + 1 < 65536 && |c.fields| + cost.fields < 65536 && |c.methods| + cost.methods < 65536
  }

  /** Edits leave a well-formed file if and only if the three counts stay inside 16 bits and the size inside 32. */
  lemma EditsFit(c: ClassFile, es: seq<Edit>)
    requires WellFormed(c) && AllApplicable(c, es)
    ensures Shape(ApplyAll(c, es))
    ensures CountsFit(ApplyAll(c, es)) <==> CountsLeft(c, TotalCost(es))
    ensures WellFormed(ApplyAll(c, es)) <==>
              CountsLeft(c, TotalCost(es)) && |Print(c)| + TotalGrowth(c, es) < 4294967296
  {
    hide Shape, Print;
    EditsKeep(c, es);
  }

  // ---------------------------------------------------------------- copy, then convert

  /** The text of Utf8 entry number k. */
  function TextAt(c: ClassFile, k: nat): seq<Byte>
    requires 1 <= k <= |c.pool| && |c.pool[k - 1]| >= 3
  {
    c.pool[k - 1][3..]
  }

  /** Pool index k stands for this text. */
  predicate HasText(c: ClassFile, k: nat, text: seq<Byte>) {
    && 1 <= k <= |c.pool| && |c.pool[k - 1]| == |text| + 3 && c.pool[k - 1][0] == TAG_UTF8
    && U16At(c.pool[k - 1], 1) == |text| && TextAt(c, k) == text
  }

  /** The index an entry gets when it is added stands for the text that was added, and goes on doing so. */
  lemma AddedText(c: ClassFile, text: seq<Byte>, tags: seq<seq<Byte>>, i: nat)
    requires |text| < 65536 && i < |tags| && tags[i] == Utf8(text)
    ensures HasText(AddTags(c, tags), NextIndex(c) + i, text)
  {
    hide Utf8;
    Utf8Reads(text);
    assert AddTags(c, tags).pool[|c.pool| + i] == tags[i];
  }

  /**
   * What instrumenting method i leaves: behind the old methods a copy under the new name, with the flags,
   * descriptor and attributes of the original; in its old place the original name and descriptor, now
   * native and without attributes; everything else as it was.
   */
  ghost predicate Instrumented(c: ClassFile, i: nat, name: seq<Byte>, c': ClassFile)
    requires i < |c.methods| && |c.methods[i]| >= 8
  {
    && |c'.methods| == |c.methods| + 1
    && (forall j | 0 <= j < |c.methods| && j != i :: c'.methods[j] == c.methods[j])
    && c'.(pool := c.pool, methods := c.methods) == c
    && c.pool <= c'.pool && |c'.pool| == |c.pool| + 1
    && IsCopy(c.methods[i], c'.methods[|c.methods|], |c'.pool|)
    && c'.pool[|c.pool|] == Utf8(name) && HasText(c', |c'.pool|, name)
    && IsStub(c.methods[i], c'.methods[i])
  }

  ghost predicate IsCopy(m: seq<Byte>, copy: seq<Byte>, nameIndex: nat)
    requires |m| >= 8
  {
    |copy| == |m| && copy[..2] == m[..2] && U16At(copy, 2) == nameIndex && copy[4..] == m[4..]
  }

  ghost predicate IsStub(m: seq<Byte>, stub: seq<Byte>)
    requires |m| >= 8
  {
    && |stub| == 8 && U16At(stub, 2) == U16At(m, 2) && U16At(stub, 4) == U16At(m, 4) && U16At(stub, 6) == 0
    && U16At(stub, 0) == U16At(m, 0) + if m[0] % 2 == 1 then 0 else 256
  }

  lemma CopyIsCopy(m: seq<Byte>, k: nat)
    requires Member(m) && k < 65536
    ensures IsCopy(m, Renamed(m, k), k)
  {
    hide Be16, Renamed, U16;
    RenamedMember(m, k);
  }

  lemma NativeIsStub(m: seq<Byte>)
    requires |m| >= 8
    ensures IsStub(m, Native(m))
  {
    NativeCount(m);
    NativeNames(m);
  }

  lemma CopyThenConvert(c: ClassFile, i: nat, name: seq<Byte>)
    requires Shape(c) && i < |c.methods| && Text(name) && NextIndex(c) < 65536
    ensures Member(c.methods[i])
    ensures var c' := ConvertToNative(CopyMethod(c, c.methods[i], name), i);
            Shape(c') && Instrumented(c, i, name, c') && |Print(c')| == |Print(c)| + |name| + 11
  {
    hide Be16, Utf8, IsCopy, IsStub, Renamed, Native, U16At;
    var m := c.methods[i];
    assert m in c.methods;
    CopyKeeps(c, m, name);
    CopyIsCopy(m, NextIndex(c));
    NativeEditKeeps(CopyMethod(c, m, name), i);
    NativeIsStub(m);
    AddedText(c, name, [Utf8(name)], 0);
  }

  lemma CopyThenConvertWellFormed(c: ClassFile, i: nat, name: seq<Byte>)
    requires WellFormed(c) && i < |c.methods| && Text(name)
    requires |c.pool| + 2 < 65536 && |c.methods| + 1 < 65536 && |Print(c)| + |name| + 11 < 4294967296
    ensures Member(c.methods[i])
    ensures var c' := ConvertToNative(CopyMethod(c, c.methods[i], name), i);
            WellFormed(c') && Instrumented(c, i, name, c')
  {
    hide Shape, Print, Utf8, Renamed, Native, Member;
    CopyThenConvert(c, i, name);
  }

  // ---------------------------------------------------------------- what an edit means to a reader of the file

  /** A field or method with these flags, this name and descriptor and so many attributes. */
  predicate Describes(c: ClassFile, m: seq<Byte>, flags: nat, name: seq<Byte>, desc: seq<Byte>, attributes: nat) {
    && |m| >= 8 && U16At(m, 0) == flags % 65536 && HasText(c, U16At(m, 2), name) && HasText(c, U16At(m, 4), desc)
    && U16At(m, 6) == attributes
  }

  /** A Code attribute with this stack, these locals and this code, no exception table and no attributes of its own. */
  predicate HasCode(c: ClassFile, a: seq<Byte>, ms: nat, ml: nat, code: seq<Byte>) {
    && |a| == 18 + |code| && HasText(c, U16At(a, 0), CODE) && U32At(a, 2) == 12 + |code|
    && U16At(a, 6) == ms % 65536 && U16At(a, 8) == ml % 65536 && U32At(a, 10) == |code|
    && a[14..14 + |code|] == code && U16At(a, 14 + |code|) == 0 && U16At(a, 16 + |code|) == 0
  }

  /** The entry refers to a name and a type, as its texts. */
  predicate NamesType(c: ClassFile, e: seq<Byte>, name: seq<Byte>, desc: seq<Byte>) {
    |e| == 5 && e[0] == TAG_NAME_AND_TYPE && HasText(c, U16At(e, 1), name) && HasText(c, U16At(e, 3), desc)
  }

  predicate RefersTo(e: seq<Byte>, classIndex: nat, nameAndType: nat) {
    |e| == 5 && e[0] == TAG_METHODREF && U16At(e, 1) == classIndex % 65536 && U16At(e, 3) == nameAndType % 65536
  }

  function Last(s: seq<seq<Byte>>): seq<Byte>
    requires s != []
  {
    s[|s| - 1]
  }

  /** The last method is the one asked for. */
  ghost predicate HasMethod(c: ClassFile, name: seq<Byte>, desc: seq<Byte>, flags: nat, ms: nat, ml: nat, code: CodeArg)
  {
    && c.methods != []
    && var m := Last(c.methods);
       match code
       case Absent => |m| == 8 && Describes(c, m, flags, name, desc, 0)
       case Present(bytes) => Describes(c, m, flags, name, desc, 1) && HasCode(c, m[8..], ms, ml, bytes)
  }

  /** What has been added, as a reader of the edited file c' finds it. */
  ghost predicate Means(c: ClassFile, e: Edit, c': ClassFile) {
    match e
    case NameAndType(name, desc) => c'.pool != [] && NamesType(c', Last(c'.pool), name, desc)
    case MethodRef(ci, nt) => c'.pool != [] && RefersTo(Last(c'.pool), ci, nt)
    case Copy(m, name) =>
      && |m| >= 8 && c'.methods != [] && IsCopy(m, Last(c'.methods), |c'.pool|) && HasText(c', |c'.pool|, name)
    case ToNative(i) =>
      && i < |c.methods| == |c'.methods| && |c.methods[i]| >= 8 && IsStub(c.methods[i], c'.methods[i])
      && forall j | 0 <= j < |c.methods| && j != i :: c'.methods[j] == c.methods[j]
    case NewMethod(name, desc, flags) => HasMethod(c', name, desc, flags, 0, 0, Absent)
    case NewCode(name, desc, flags, ms, ml, code) => HasMethod(c', name, desc, flags, ms, ml, Present(code))
    case NewField(name, desc, flags) =>
      c'.fields != [] && |Last(c'.fields)| == 8 && Describes(c', Last(c'.fields), flags, name, desc, 0)
  }

  lemma MemberDescribes(c: ClassFile, k: nat, flags: nat, name: seq<Byte>, desc: seq<Byte>, n: nat, a: seq<Byte>)
    requires HasText(c, k, name) && HasText(c, k + 1, desc) && k + 1 < 65536 && n < 65536
    ensures Describes(c, MemberInfo(flags, k, k + 1, n) + a, flags, name, desc, n)
  {
    hide MemberInfo, HasText, U16At;
    MemberInfoWords(flags, k, k + 1, n);
    InfoInFront(MemberInfo(flags, k, k + 1, n), a);
  }

  lemma InfoInFront(info: seq<Byte>, a: seq<Byte>)
    requires |info| == 8
    ensures U16At(info + a, 0) == U16At(info, 0) && U16At(info + a, 2) == U16At(info, 2)
    ensures U16At(info + a, 4) == U16At(info, 4) && U16At(info + a, 6) == U16At(info, 6)
  {
    hide U16;
  }

  lemma AttributeHasCode(c: ClassFile, k: nat, ms: nat, ml: nat, code: seq<Byte>)
    requires HasText(c, k, CODE) && k < 65536 && 12 + |code| < 4294967296
    ensures HasCode(c, CodeAttribute(k, ms, ml, code), ms, ml, code)
  {
    hide CodeHead, HasText, U16At, U32At;
    var head, a := CodeHead(k, ms, ml, |code|), CodeAttribute(k, ms, ml, code);
    CodeHeadWords(k, ms, ml, |code|);
    assert a == head + (code + [0, 0, 0, 0]);
    WordsInFront(head, code + [0, 0, 0, 0], a);
    CodeBehind(head, code, a);
    assert U16At([0, 0, 0, 0], 0) == 0 && U16At([0, 0, 0, 0], 2) == 0 by { ZeroWords(); }
  }

  lemma ZeroWords()
    ensures U16At([0, 0, 0, 0], 0) == 0 && U16At([0, 0, 0, 0], 2) == 0
  {
  }

  lemma WordsInFront(head: seq<Byte>, rest: seq<Byte>, a: seq<Byte>)
    requires |head| == 14 && a == head + rest
    ensures U16At(a, 0) == U16At(head, 0) && U32At(a, 2) == U32At(head, 2) && U16At(a, 6) == U16At(head, 6)
    ensures U16At(a, 8) == U16At(head, 8) && U32At(a, 10) == U32At(head, 10)
  {
    hide U16, U32;
  }

  lemma CodeBehind(head: seq<Byte>, code: seq<Byte>, a: seq<Byte>)
    requires |head| == 14 && a == head + (code + [0, 0, 0, 0])
    ensures |a| == 18 + |code| && a[14..14 + |code|] == code
    ensures U16At(a, 14 + |code|) == U16At([0, 0, 0, 0], 0) && U16At(a, 16 + |code|) == U16At([0, 0, 0, 0], 2)
  {
    hide U16;
  }

  /** Every edit adds what it was asked to add, as long as the index of its last entry fits 16 bits. */
  lemma EditMeans(c: ClassFile, e: Edit)
    requires Shape(c) && Applicable(c, e) && |c.pool| + CostOf(e).pool < 65536
    ensures Means(c, e, Apply(c, e))
  {
    hide Shape, Utf8, MemberInfo, CodeAttribute, HasText, Describes, HasCode, NamesType, Reference, IsCopy, IsStub;
    var c', k := Apply(c, e), NextIndex(c);
    match e {
      case NameAndType(name, desc) => NameAndTypeMeans(c, name, desc);
      case MethodRef(ci, nt) => ReferenceWords(TAG_METHODREF, ci, nt);
      case Copy(m, name) =>
        CopyIsCopy(m, k);
        AddedText(c, name, [Utf8(name)], 0);
        assert AddTag(c, Utf8(name)) == AddTags(c, [Utf8(name)]);
        SameText(AddTags(c, [Utf8(name)]), c', k, name);
      case ToNative(i) => NativeMeans(c, i);
      case NewMethod(name, desc, flags) => MethodMeans(c, name, desc, flags, 0, 0, Absent);
      case NewCode(name, desc, flags, ms, ml, code) => MethodMeans(c, name, desc, flags, ms, ml, Present(code));
      case NewField(name, desc, flags) => FieldMeans(c, name, desc, flags);
    }
  }

  lemma SameText(c: ClassFile, d: ClassFile, k: nat, text: seq<Byte>)
    requires c.pool == d.pool && HasText(c, k, text)
    ensures HasText(d, k, text)
  {
  }

  lemma NameAndTypeMeans(c: ClassFile, name: seq<Byte>, desc: seq<Byte>)
    requires Text(name) && Text(desc) && |c.pool| + 3 < 65536
    ensures var k := NextIndex(c);
            var c' := AddTags(c, [Utf8(name), Utf8(desc), Reference(TAG_NAME_AND_TYPE, k, k + 1)]);
            NamesType(c', Last(c'.pool), name, desc)
  {
    hide Utf8, Reference, HasText;
    var k := NextIndex(c);
    var tags := [Utf8(name), Utf8(desc), Reference(TAG_NAME_AND_TYPE, k, k + 1)];
    AddedText(c, name, tags, 0);
    AddedText(c, desc, tags, 1);
    ReferenceWords(TAG_NAME_AND_TYPE, k, k + 1);
  }

  lemma NativeMeans(c: ClassFile, i: nat)
    requires Shape(c) && i < |c.methods|
    ensures Means(c, ToNative(i), Apply(c, ToNative(i)))
  {
    hide Native, IsStub;
    assert c.methods[i] in c.methods;
    NativeIsStub(c.methods[i]);
  }

  lemma FieldMeans(c: ClassFile, name: seq<Byte>, desc: seq<Byte>, flags: nat)
    requires Shape(c) && Text(name) && Text(desc) && |c.pool| + 2 < 65536
    ensures Means(c, NewField(name, desc, flags), Apply(c, NewField(name, desc, flags)))
  {
    hide Shape, Utf8, MemberInfo, HasText, Describes;
    var c', k, tags := Apply(c, NewField(name, desc, flags)), NextIndex(c), [Utf8(name), Utf8(desc)];
    AddedText(c, name, tags, 0);
    AddedText(c, desc, tags, 1);
    SameText(AddTags(c, tags), c', k, name);
    SameText(AddTags(c, tags), c', k + 1, desc);
    MemberDescribes(c', k, flags, name, desc, 0, []);
    assert MemberInfo(flags, k, k + 1, 0) + [] == MemberInfo(flags, k, k + 1, 0);
  }

  lemma MethodMeans(c: ClassFile, name: seq<Byte>, desc: seq<Byte>, flags: nat, ms: nat, ml: nat, code: CodeArg)
    requires Text(name) && Text(desc) && |c.pool| + (if code.Absent? then 2 else 3) < 65536
    requires code.Present? ==> 12 + |code.bytes| < 4294967296
    ensures HasMethod(MethodAdded(c, name, desc, flags, ms, ml, code), name, desc, flags, ms, ml, code)
  {
    hide Utf8, MemberInfo, HasText, Describes, CodeAttribute, HasCode;
    match code {
      case Absent =>
        var c', k, tags := MethodAdded(c, name, desc, flags, ms, ml, code), NextIndex(c), [Utf8(name), Utf8(desc)];
        AddedText(c, name, tags, 0);
        AddedText(c, desc, tags, 1);
        SameText(AddTags(c, tags), c', k, name);
        SameText(AddTags(c, tags), c', k + 1, desc);
        MemberDescribes(c', k, flags, name, desc, 0, []);
        assert MemberInfo(flags, k, k + 1, 0) + [] == MemberInfo(flags, k, k + 1, 0);
      case Present(bytes) => NewCodeMeans(c, name, desc, flags, ms, ml, bytes);
    }
  }

  lemma NewCodeMeans(c: ClassFile, name: seq<Byte>, desc: seq<Byte>, flags: nat, ms: nat, ml: nat, code: seq<Byte>)
    requires Text(name) && Text(desc) && |c.pool| + 3 < 65536 && 12 + |code| < 4294967296
    ensures var c' := MethodAdded(c, name, desc, flags, ms, ml, Present(code));
            Describes(c', Last(c'.methods), flags, name, desc, 1) && HasCode(c', Last(c'.methods)[8..], ms, ml, code)
  {
    hide Utf8, MemberInfo, HasText, Describes, CodeAttribute, HasCode;
    var c' := MethodAdded(c, name, desc, flags, ms, ml, Present(code));
    var k, tags := NextIndex(c), [Utf8(name), Utf8(desc), Utf8(CODE)];
    AddedText(c, name, tags, 0);
    AddedText(c, desc, tags, 1);
    AddedText(c, CODE, tags, 2);
    SameText(AddTags(c, tags), c', k, name);
    SameText(AddTags(c, tags), c', k + 1, desc);
    SameText(AddTags(c, tags), c', k + 2, CODE);
    var a := CodeAttribute(k + 2, ms, ml, code);
    MemberDescribes(c', k, flags, name, desc, 1, a);
    AttributeHasCode(c', k + 2, ms, ml, code);
    assert (MemberInfo(flags, k, k + 1, 1) + a)[8..] == a;
  }
}
