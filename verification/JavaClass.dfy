/**
 * java_class_t of src/javabci.c: reading a class file into tables of entries, editing the tables in
 * place, and writing the file back.
 */
module JavaClass {
  import opened Bytes
  import opened ClassFormat

  /** Room for additions that javaReadClass leaves in each table. */
  const ROOM: nat := 100

  // ---------------------------------------------------------------- reading

  lemma TakeWord(x: nat, t: seq<Byte>, s: seq<Byte>)
    requires s == Be16(x) + t && x < 65536
    ensures |s| >= 2 && U16At(s, 0) == x && s[2..] == t
  {
    assert s[0] == Be16(x)[0] && s[1] == Be16(x)[1];
  }

  lemma TakePiece(e: seq<Byte>, t: seq<Byte>, s: seq<Byte>)
    requires s == e + t
    ensures s[..|e|] == e && s[|e|..] == t
  {
  }

  /** The first of several entries, in front of the others and of what follows them. */
  lemma FirstEntry(es: seq<seq<Byte>>, tail: seq<Byte>, s: seq<Byte>)
    requires es != [] && s == Concat(es) + tail
    ensures s == es[0] + (Concat(es[1..]) + tail)
  {
    AppendAssoc(es[0], Concat(es[1..]), tail);
  }

  /** What the pool loop finds at the read position, and what it leaves. */
  lemma PoolHead(left: seq<seq<Byte>>, tail: seq<Byte>, rest: seq<Byte>) returns (left': seq<seq<Byte>>)
    requires left != [] && PoolOk(left) && rest == Concat(left) + tail
    ensures |rest| >= 1 && (rest[0] == TAG_UTF8 ==> |rest| >= 3)
    ensures TagLength(rest) == |left[0]| <= |rest| && rest[..|left[0]|] == left[0]
    ensures Wide(left[0]) == (rest[0] == TAG_DOUBLE || rest[0] == TAG_LONG)
    ensures PoolOk(left') && rest[|left[0]|..] == Concat(left') + tail
    ensures if Wide(left[0]) then |left| >= 2 && left[1] == [] && left' == left[2..] else left' == left[1..]
  {
    FirstEntry(left, tail, rest);
    TagLengthLocal(left[0], Concat(left[1..]) + tail, rest);
    TakePiece(left[0], Concat(left[1..]) + tail, rest);
    left' := left[1..];
    if Wide(left[0]) {
      left' := left[2..];
      SkipSlot(left, tail);
    }
  }

  lemma SkipSlot(left: seq<seq<Byte>>, tail: seq<Byte>)
    requires |left| >= 2 && left[1] == []
    ensures Concat(left[1..]) + tail == Concat(left[2..]) + tail
  {
    assert left[1..][1..] == left[2..];
  }

  /** The constant-pool loop of javaReadClass; n entries, the slot behind a Long or Double stays empty. */
  method ReadPool(mem: seq<Byte>, n: nat, ghost pool: seq<seq<Byte>>, ghost tail: seq<Byte>)
    returns (table: array<seq<Byte>>, rest: seq<Byte>)
    requires PoolOk(pool) && |pool| == n && mem == Concat(pool) + tail
    ensures fresh(table) && table.Length == ROOM + n && table[..n] == pool && rest == tail
  {
    hide TagLength, PoolOk, Concat, Entry;
    table := new seq<Byte>[ROOM + n](_ => []);
    rest := mem;
    var i := 1;
    ghost var left := pool;
    while i < n + 1
      invariant 1 <= i <= n + 1 && left == pool[i - 1..]
      invariant PoolOk(left) && rest == Concat(left) + tail
      invariant table[..i - 1] == pool[..i - 1]
      invariant forall j | i - 1 <= j < table.Length :: table[j] == []
    {
      ghost var left' := PoolHead(left, tail, rest);
      var size := TagLength(rest);
      var tag := rest[0];
      table[i - 1] := rest[..size];
      if tag == TAG_DOUBLE || tag == TAG_LONG {
        assert pool[i] == left[1] == [];
        i := i + 1;
      }
      rest := rest[size..];
      i := i + 1;
      left := left';
    }
    ConcatNone(tail);
  }

  lemma ConcatNone(tail: seq<Byte>)
    ensures Concat([]) + tail == tail
  {
  }

  /** The field and method loops of javaReadClass. */
  method ReadMembers(mem: seq<Byte>, n: nat, ghost members: seq<seq<Byte>>, ghost tail: seq<Byte>)
    returns (table: array<seq<Byte>>, rest: seq<Byte>)
    requires (forall m | m in members :: Member(m)) && |members| == n && mem == Concat(members) + tail
    ensures fresh(table) && table.Length == ROOM + n && table[..n] == members && rest == tail
  {
    table := new seq<Byte>[ROOM + n](_ => []);
    rest := mem;
    var i := 0;
    assert members[0..] == members;
    while i < n
      invariant 0 <= i <= n
      invariant rest == Concat(members[i..]) + tail
      invariant table[..i] == members[..i]
    {
      ghost var left := members[i..];
      FirstEntry(left, tail, rest);
      assert Member(members[i]);
      MemberLengthLocal(left[0], Concat(left[1..]) + tail, rest);
      TakePiece(left[0], Concat(left[1..]) + tail, rest);
      var size := MemberLength(rest);
      table[i] := rest[..size];
      rest := rest[size..];
      i := i + 1;
      assert members[i..] == left[1..];
    }
    assert members[n..] == [];
  }

  /** The attribute loop of javaReadClass; attributes get no room to grow. */
  method ReadAttributes(mem: seq<Byte>, n: nat, ghost attributes: seq<seq<Byte>>, ghost tail: seq<Byte>)
    returns (table: array<seq<Byte>>, rest: seq<Byte>)
    requires (forall a | a in attributes :: Attribute(a)) && |attributes| == n && mem == Concat(attributes) + tail
    ensures fresh(table) && table.Length == n && table[..] == attributes && rest == tail
  {
    table := new seq<Byte>[n](_ => []);
    rest := mem;
    var i := 0;
    assert attributes[0..] == attributes;
    while i < n
      invariant 0 <= i <= n
      invariant rest == Concat(attributes[i..]) + tail
      invariant table[..i] == attributes[..i]
    {
      ghost var left := attributes[i..];
      FirstEntry(left, tail, rest);
      assert Attribute(attributes[i]);
      assert U32At(rest, 2) == U32At(left[0], 2);
      TakePiece(left[0], Concat(left[1..]) + tail, rest);
      var size := U32At(rest, 2) + 6;
      table[i] := rest[..size];
      rest := rest[size..];
      i := i + 1;
      assert attributes[i..] == left[1..];
    }
    assert attributes[n..] == [];
    assert table[..] == table[..n];
  }

  // ---------------------------------------------------------------- writing

  /** memcpy to the write position, which moves on. */
  method Put(dest: array<Byte>, pos: nat, s: seq<Byte>) returns (pos': nat)
    requires pos + |s| <= dest.Length
    modifies dest
    ensures pos' == pos + |s|
    ensures dest[..pos'] == old(dest[..pos]) + s
    ensures dest[pos'..] == old(dest[pos'..])
  {
    forall i | 0 <= i < |s| { dest[pos + i] := s[i]; }
    pos' := pos + |s|;
  }

  lemma ConcatTake(es: seq<seq<Byte>>, i: nat, done: seq<Byte>)
    requires i < |es|
    ensures done + Concat(es[..i + 1]) == (done + Concat(es[..i])) + es[i]
    ensures |Concat(es[..i + 1])| <= |Concat(es)|
  {
    ConcatAppend(es[..i], [es[i]], es[..i + 1]);
    ConcatOne(es[i]);
    AppendAssoc(done, Concat(es[..i]), es[i]);
    ConcatAppend(es[..i + 1], es[i + 1..], es);
  }

  /** The constant-pool loop of javaWriteClass. */
  method WritePool(dest: array<Byte>, pos: nat, table: array<seq<Byte>>, n: nat) returns (pos': nat)
    requires n <= table.Length && PoolOk(table[..n]) && pos + |Concat(table[..n])| <= dest.Length
    modifies dest
    ensures pos' == pos + |Concat(table[..n])|
    ensures dest[..pos'] == old(dest[..pos]) + Concat(table[..n])
    ensures dest[pos'..] == old(dest[pos'..])
  {
    ghost var pool := table[..n];
    ghost var done := dest[..pos];
    pos' := pos;
    var i := 0;
    assert pool[0..] == pool && Concat(pool[..0]) == [];
    while i < n
      invariant 0 <= i <= n && PoolOk(pool[i..])
      invariant pos' == pos + |Concat(pool[..i])| && pos' <= dest.Length
      invariant dest[..pos'] == done + Concat(pool[..i])
      invariant |Concat(pool[..i])| <= |Concat(pool)|
      invariant dest[pos'..] == old(dest[pos'..])
    {
      var e := table[i];
      assert pool[i..][0] == e;
      TagLengthLocal(e, [], e);
      var size := TagLength(e);
      assert e[..size] == e;
      ConcatTake(pool, i, done);
      ghost var i0, before := i, pos';
      pos' := Put(dest, pos', e[..size]);
      RestUnchanged(old(dest[..]), before, pos');
      if e[0] == TAG_DOUBLE || e[0] == TAG_LONG {
        assert pool[i + 1] == pool[i..][1] == [];
        ConcatTake(pool, i + 1, done);
        i := i + 1;
      }
      i := i + 1;
      assert pool[i..] == if Wide(e) then pool[i0..][2..] else pool[i0..][1..];
    }
    assert pool[..n] == pool;
  }

  lemma RestUnchanged(s: seq<Byte>, a: nat, b: nat)
    requires a <= b <= |s|
    ensures s[a..][b - a..] == s[b..]
  {
  }

  /** The field and method loops of javaWriteClass. */
  method WriteMembers(dest: array<Byte>, pos: nat, table: array<seq<Byte>>, n: nat) returns (pos': nat)
    requires n <= table.Length && (forall m | m in table[..n] :: Member(m))
    requires pos + |Concat(table[..n])| <= dest.Length
    modifies dest
    ensures pos' == pos + |Concat(table[..n])|
    ensures dest[..pos'] == old(dest[..pos]) + Concat(table[..n])
    ensures dest[pos'..] == old(dest[pos'..])
  {
    hide Member, MemberLength, Concat;
    ghost var members, done := table[..n], dest[..pos];
    pos' := pos;
    var i := 0;
    ConcatStart(members, done);
    while i < n
      invariant 0 <= i <= n
      invariant pos' == pos + |Concat(members[..i])| && |Concat(members[..i])| <= |Concat(members)|
      invariant dest[..pos'] == done + Concat(members[..i])
      invariant dest[pos'..] == old(dest[pos'..])
    {
      var m := table[i];
      assert m == members[i] && m in table[..n];
      MemberLengthAlone(m);
      var size := MemberLength(m);
      ConcatTake(members, i, done);
      ghost var before := pos';
      pos' := Put(dest, pos', m[..size]);
      RestUnchanged(old(dest[..]), before, pos');
      i := i + 1;
    }
    assert members[..n] == members;
  }

  lemma ConcatStart(es: seq<seq<Byte>>, done: seq<Byte>)
    ensures |Concat(es[..0])| == 0 && done == done + Concat(es[..0])
  {
  }

  lemma MemberLengthAlone(m: seq<Byte>)
    requires Member(m)
    ensures |m| >= 8 && MemberLength(m) == |m| && m[..|m|] == m
  {
    MemberLengthLocal(m, [], m);
  }

  /** The attribute loop of javaWriteClass. */
  method WriteAttributes(dest: array<Byte>, pos: nat, table: array<seq<Byte>>) returns (pos': nat)
    requires (forall a | a in table[..] :: Attribute(a)) && pos + |Concat(table[..])| <= dest.Length
    modifies dest
    ensures pos' == pos + |Concat(table[..])|
    ensures dest[..pos'] == old(dest[..pos]) + Concat(table[..])
    ensures dest[pos'..] == old(dest[pos'..])
  {
    hide Concat;
    ghost var attributes, done := table[..], dest[..pos];
    pos' := pos;
    var i := 0;
    ConcatStart(attributes, done);
    while i < table.Length
      invariant 0 <= i <= table.Length
      invariant pos' == pos + |Concat(attributes[..i])| && |Concat(attributes[..i])| <= |Concat(attributes)|
      invariant dest[..pos'] == done + Concat(attributes[..i])
      invariant dest[pos'..] == old(dest[pos'..])
    {
      var a := table[i];
      assert a == attributes[i] && a in table[..];
      var size := U32At(a, 2) + 6;
      assert a[..size] == a;
      ConcatTake(attributes, i, done);
      ghost var before := pos';
      pos' := Put(dest, pos', a[..size]);
      RestUnchanged(old(dest[..]), before, pos');
      i := i + 1;
    }
    assert attributes[..table.Length] == attributes;
  }

  lemma AddedOneByOne(c: ClassFile, a: seq<Byte>, b: seq<Byte>, d: seq<Byte>)
    ensures ClassFormat.AddTag(ClassFormat.AddTag(c, a), b) == AddTags(c, [a, b])
    ensures ClassFormat.AddTag(ClassFormat.AddTag(ClassFormat.AddTag(c, a), b), d) == AddTags(c, [a, b, d])
  {
    assert c.pool + [a] + [b] == c.pool + [a, b];
    assert c.pool + [a] + [b] + [d] == c.pool + [a, b, d];
  }

  // ---------------------------------------------------------------- java_class_t

  class Info {
    const minor: nat
    const major: nat
    const access: nat
    const thisClass: nat
    const superClass: nat
    const interfaces: seq<Byte>
    const constantPool: array<seq<Byte>>
    const fields: array<seq<Byte>>
    const methods: array<seq<Byte>>
    const attributes: array<seq<Byte>>
    var constantPoolCount: nat
    var fieldsCount: nat
    var methodsCount: nat
    var length: nat

    /** The counts stay inside the allocations, and the tables do not overlap. */
    ghost predicate InBounds()
      reads this
    {
      && 1 <= constantPoolCount && constantPoolCount - 1 <= constantPool.Length
      && fieldsCount <= fields.Length && methodsCount <= methods.Length
      && constantPool != fields && constantPool != methods && constantPool != attributes
      && fields != methods && fields != attributes && methods != attributes
    }

    ghost function Value(): ClassFile
      requires InBounds()
      reads this, constantPool, fields, methods, attributes
    {
      ClassFile(minor, major, constantPool[..constantPoolCount - 1], access, thisClass, superClass, interfaces,
                fields[..fieldsCount], methods[..methodsCount], attributes[..])
    }

    /** The tables stand for a class file whose counts fit, and length is its size as far as 32 bits go. */
    ghost predicate Valid()
      reads this, constantPool, fields, methods, attributes
    {
      InBounds() && Shape(Value()) && CountsFit(Value()) && length == |Print(Value())| % U32_RANGE
    }

    /** Slots still free in the tables, and counts that still fit 16 bits when they are taken. */
    ghost predicate RoomFor(cost: Cost)
      reads this
    {
      && constantPoolCount - 1 + cost.pool <= constantPool.Length && constantPoolCount + cost.pool < U16_RANGE
      && fieldsCount + cost.fields <= fields.Length && fieldsCount + cost.fields < U16_RANGE
      && methodsCount + cost.methods <= methods.Length && methodsCount + cost.methods < U16_RANGE
    }

    constructor (c: ClassFile, pool: array<seq<Byte>>, fields: array<seq<Byte>>, methods: array<seq<Byte>>,
                 attributes: array<seq<Byte>>, length: nat)
      requires |c.pool| <= pool.Length && pool[..|c.pool|] == c.pool
      requires |c.fields| <= fields.Length && fields[..|c.fields|] == c.fields
      requires |c.methods| <= methods.Length && methods[..|c.methods|] == c.methods
      requires attributes[..] == c.attributes
      requires pool != fields && pool != methods && pool != attributes
      requires fields != methods && fields != attributes && methods != attributes
      ensures this.constantPool == pool && this.fields == fields && this.methods == methods
      ensures this.attributes == attributes && this.length == length
      ensures InBounds() && Value() == c
    {
      minor, major, access, thisClass, superClass := c.minor, c.major, c.access, c.thisClass, c.superClass;
      interfaces := c.interfaces;
      this.constantPool, this.fields, this.methods, this.attributes := pool, fields, methods, attributes;
      constantPoolCount, fieldsCount, methodsCount := |c.pool| + 1, |c.fields|, |c.methods|;
      this.length := length;
    }

    /** addTag: the entry gets the next index. */
    method AddTag(tag: seq<Byte>) returns (index: nat)
      requires InBounds() && RoomFor(Cost(1, 0, 0))
      modifies this`constantPoolCount, constantPool
      ensures InBounds() && Value() == ClassFormat.AddTag(old(Value()), tag)
      ensures index == NextIndex(old(Value())) && constantPoolCount == old(constantPoolCount) + 1
    {
      var idx := constantPoolCount - 1;
      constantPoolCount := (constantPoolCount + 1) % U16_RANGE;
      constantPool[idx] := tag;
      index := idx + 1;
    }

    /** An addition to the 32-bit length, which was that of a file of `size` bytes. */
    method Lengthen(n: int, ghost size: int)
      requires length == size % U32_RANGE
      modifies this`length
      ensures length == (size + n) % U32_RANGE
    {
      length := (length + n) % U32_RANGE;
    }

    /** addUtf8Tag */
    method AddUtf8Tag(text: seq<Byte>, ghost size: int) returns (index: nat)
      requires InBounds() && RoomFor(Cost(1, 0, 0)) && Text(text) && length == size % U32_RANGE
      modifies this`constantPoolCount, this`length, constantPool
      ensures InBounds() && Value() == ClassFormat.AddTag(old(Value()), Utf8(text))
      ensures index == NextIndex(old(Value())) && constantPoolCount == old(constantPoolCount) + 1
      ensures HasText(Value(), index, text)
      ensures length == (size + |text| + 3) % U32_RANGE
    {
      hide Utf8, HasText;
      AddedText(Value(), text, [Utf8(text)], 0);
      SameText(AddTags(Value(), [Utf8(text)]), ClassFormat.AddTag(Value(), Utf8(text)), NextIndex(Value()), text);
      Lengthen(|text| + 3, size);
      index := AddTag(Utf8(text));
    }

    /** javaAddNameAndTypeTag */
    method AddNameAndTypeTag(name: seq<Byte>, desc: seq<Byte>) returns (index: nat)
      requires Valid() && RoomFor(Cost(3, 0, 0)) && Text(name) && Text(desc)
      modifies this`constantPoolCount, this`length, constantPool
      ensures Valid() && Value() == Apply(old(Value()), NameAndType(name, desc))
      ensures index == |Value().pool|
    {
      hide Shape, Print, Utf8, Reference;
      ghost var size := |Print(Value())|;
      EditKeeps(Value(), NameAndType(name, desc));
      AddedOneByOne(Value(), Utf8(name), Utf8(desc),
                    Reference(TAG_NAME_AND_TYPE, constantPoolCount, constantPoolCount + 1));
      var nameIndex := AddUtf8Tag(name, size);
      var descIndex := AddUtf8Tag(desc, size + |name| + 3);
      Lengthen(5, size + |name| + 3 + |desc| + 3);
      index := AddTag(Reference(TAG_NAME_AND_TYPE, nameIndex, descIndex));
    }

    /** javaAddMethodRefTag */
    method AddMethodRefTag(classIndex: nat, nameAndTypeIndex: nat) returns (index: nat)
      requires Valid() && RoomFor(Cost(1, 0, 0))
      modifies this`constantPoolCount, this`length, constantPool
      ensures Valid() && Value() == Apply(old(Value()), MethodRef(classIndex, nameAndTypeIndex))
      ensures index == |Value().pool|
    {
      hide Shape, Print, Reference;
      ghost var size := |Print(Value())|;
      EditKeeps(Value(), MethodRef(classIndex, nameAndTypeIndex));
      Lengthen(5, size);
      index := AddTag(Reference(TAG_METHODREF, classIndex, nameAndTypeIndex));
    }

    /** javaCopyMethod */
    method CopyMethod(method_: seq<Byte>, newName: seq<Byte>)
      requires Valid() && RoomFor(Cost(1, 0, 1)) && Member(method_) && Text(newName)
      modifies this`constantPoolCount, this`methodsCount, this`length, constantPool, methods
      ensures Valid() && Value() == ClassFormat.CopyMethod(old(Value()), method_, newName)
    {
      hide Shape, Print, Utf8, Renamed, Member, MemberLength;
      ghost var size := |Print(Value())|;
      EditKeeps(Value(), Copy(method_, newName));
      MemberLengthAlone(method_);
      var len := MemberLength(method_);
      var nameIndex := AddUtf8Tag(newName, size);
      AppendMethod(Renamed(method_[..len], nameIndex), len, size + |newName| + 3);
    }

    /** The new last entry of the method table. */
    method AppendMethod(m: seq<Byte>, size: nat, ghost total: int)
      requires InBounds() && RoomFor(Cost(0, 0, 1)) && length == total % U32_RANGE
      modifies this`methodsCount, this`length, methods
      ensures InBounds() && Value() == old(Value()).(methods := old(Value()).methods + [m])
      ensures length == (total + size) % U32_RANGE
    {
      SlotInside(methodsCount, methods.Length);
      methodsCount := (methodsCount + 1) % U16_RANGE;
      methods[methodsCount - 1] := m;
      Lengthen(size, total);
    }

    /** javaConvertMethodToNative */
    method ConvertMethodToNative(index: nat)
      requires Valid() && index < methodsCount
      modifies this`length, methods
      ensures old(Member(methods[index]))
      ensures Valid() && Value() == ConvertToNative(old(Value()), index)
    {
      hide Shape, Print, Native, Member, MemberLength;
      ghost var size := |Print(Value())|;
      NativeEditKeeps(Value(), index);
      assert Value().methods[index] == methods[index];
      var m := methods[index];
      MemberLengthAlone(m);
      var len := MemberLength(m);
      methods[index] := Native(m);
      Lengthen(8 - (len as int), size);
    }

    /** An edit there is room for leaves a class file whose counts fit, and whose size is known. */
    lemma EditLeavesFit(edit: Edit)
      requires Valid() && Applicable(Value(), edit) && RoomFor(CostOf(edit))
      ensures var c := Apply(Value(), edit);
              Shape(c) && CountsFit(c) && |Print(c)| == |Print(Value())| + Growth(Value(), edit)
    {
      hide Shape, Print, Applicable, Apply;
      EditKeeps(Value(), edit);
    }

    lemma AddedLeavesFit(name: seq<Byte>, desc: seq<Byte>, flags: nat, ms: nat, ml: nat, code: CodeArg)
      requires Valid() && RoomFor(Cost(if code.Absent? then 2 else 3, 0, 1)) && Text(name) && Text(desc)
      ensures var c := MethodAdded(Value(), name, desc, flags, ms, ml, code);
              && (Shape(c) <==> code.Absent? || 12 + |code.bytes| < U32_RANGE)
              && (Shape(c) ==> CountsFit(c) && |Print(c)| == |Print(Value())| + MethodGrowth(name, desc, code))
    {
      hide Print, Utf8, MemberInfo, CodeAttribute, PoolOk, Member, Attribute;
      var k := NextIndex(Value());
      if code.Absent? {
        EditLeavesFit(NewMethod(name, desc, flags));
      } else if 12 + |code.bytes| < U32_RANGE {
        EditLeavesFit(NewCode(name, desc, flags, ms, ml, code.bytes));
      } else {
        CodeMember(flags, k, ms, ml, code.bytes);
        var c := MethodAdded(Value(), name, desc, flags, ms, ml, code);
        assert c.methods[|c.methods| - 1] in c.methods;
      }
    }

    /** javaAddMethod. Code whose attribute is too long for its 32-bit length field leaves a file that is not Valid. */
    method AddMethod(name: seq<Byte>, desc: seq<Byte>, flags: nat, maxStack: nat, maxLocals: nat, code: CodeArg)
      requires Valid() && RoomFor(Cost(if code.Absent? then 2 else 3, 0, 1))
      requires Text(name) && Text(desc)
      modifies this`constantPoolCount, this`methodsCount, this`length, constantPool, methods
      ensures InBounds() && Value() == MethodAdded(old(Value()), name, desc, flags, maxStack, maxLocals, code)
      ensures length == (|Print(old(Value()))| + MethodGrowth(name, desc, code)) % U32_RANGE
      ensures Valid() <==> code.Absent? || 12 + |code.bytes| < U32_RANGE
      ensures Valid() ==> HasMethod(Value(), name, desc, flags, maxStack, maxLocals, code)
    {
      hide Shape, Print, Utf8, MemberInfo, CodeAttribute, CountsFit, HasText, HasMethod;
      ghost var size := |Print(Value())|;
      AddedLeavesFit(name, desc, flags, maxStack, maxLocals, code);
      if code.Present? ==> 12 + |code.bytes| < U32_RANGE {
        MethodMeans(Value(), name, desc, flags, maxStack, maxLocals, code);
      }
      AddedOneByOne(Value(), Utf8(name), Utf8(desc), Utf8(CODE));
      var nameIndex := AddUtf8Tag(name, size);
      var descIndex := AddUtf8Tag(desc, size + |name| + 3);
      var bufsize := 8;
      var m;
      size := size + |name| + 3 + |desc| + 3;
      if code.Present? {
        assert Text(CODE);
        var codeNameIndex := AddUtf8Tag(CODE, size);
        size := size + 7;
        bufsize := 8 + 2 + 4 + (12 + |code.bytes|);
        m := MemberInfo(flags, nameIndex, descIndex, 1) + CodeAttribute(codeNameIndex, maxStack, maxLocals, code.bytes);
      } else {
        m := MemberInfo(flags, nameIndex, descIndex, 0);
      }
      AppendMethod(m, bufsize, size);
      assert Value() == MethodAdded(old(Value()), name, desc, flags, maxStack, maxLocals, code);
    }

    /** javaAddField */
    method AddField(name: seq<Byte>, desc: seq<Byte>, flags: nat)
      requires Valid() && RoomFor(Cost(2, 1, 0)) && Text(name) && Text(desc)
      modifies this`constantPoolCount, this`fieldsCount, this`length, constantPool, fields
      ensures Valid() && Value() == Apply(old(Value()), NewField(name, desc, flags))
    {
      hide Shape, Print, Utf8, MemberInfo;
      ghost var size := |Print(Value())|;
      EditKeeps(Value(), NewField(name, desc, flags));
      AddedOneByOne(Value(), Utf8(name), Utf8(desc), []);
      var nameIndex := AddUtf8Tag(name, size);
      var descIndex := AddUtf8Tag(desc, size + |name| + 3);
      AppendField(MemberInfo(flags, nameIndex, descIndex, 0), size + |name| + 3 + |desc| + 3);
      assert Value() == Apply(old(Value()), NewField(name, desc, flags));
    }

    /** The new last entry of the field table. */
    method AppendField(m: seq<Byte>, ghost total: int)
      requires InBounds() && RoomFor(Cost(0, 1, 0)) && length == total % U32_RANGE
      modifies this`fieldsCount, this`length, fields
      ensures InBounds() && Value() == old(Value()).(fields := old(Value()).fields + [m])
      ensures length == (total + 8) % U32_RANGE
    {
      SlotInside(fieldsCount, fields.Length);
      fieldsCount := (fieldsCount + 1) % U16_RANGE;
      fields[fieldsCount - 1] := m;
      Lengthen(8, total);
    }

    /** javaAddStringTag: its three bytes are missing from length, which falls short of the file's size. */
    method AddStringTag(text: seq<Byte>) returns (index: nat)
      requires Valid() && RoomFor(Cost(2, 0, 0)) && Text(text)
      modifies this`constantPoolCount, this`length, constantPool
      ensures InBounds() && Value() == AddTags(old(Value()), [Utf8(text), StringTag(NextIndex(old(Value())))])
      ensures Shape(Value()) && CountsFit(Value()) && length == (|Print(Value())| - 3) % U32_RANGE
    {
      hide Shape, Print, Utf8, StringTag;
      ghost var tag, size := StringTag(constantPoolCount), |Print(Value())|;
      StringTagGrowth(Value(), text);
      AddedOneByOne(Value(), Utf8(text), tag, []);
      var idx := AddUtf8Tag(text, size);
      index := AddTag(StringTag(idx));
    }
  }

  const U16_RANGE: nat := 65536
  const U32_RANGE: nat := 4294967296

  /**
   * The slot javaCopyMethod, javaAddMethod and javaAddField store to: the 16-bit count goes up first, then one back.
   */
  function NextSlot(count: nat): int {
    (count + 1) % U16_RANGE - 1
  }

  /** With room in the allocation, that slot is inside it if and only if the count does not wrap. */
  lemma SlotInside(count: nat, slots: nat)
    requires count < U16_RANGE && count < slots
    ensures 0 <= NextSlot(count) < slots <==> count + 1 < U16_RANGE
    ensures count + 1 < U16_RANGE ==> NextSlot(count) == count
  {
  }

  function StringTag(textIndex: nat): seq<Byte> {
    [TAG_STRING] + Be16(textIndex)
  }

  /** The String entry that javaAddStringTag adds stands for the text. */
  lemma StringTagMeans(c: ClassFile, text: seq<Byte>)
    requires Text(text) && NextIndex(c) < 65536
    ensures var c' := AddTags(c, [Utf8(text), StringTag(NextIndex(c))]);
            Last(c'.pool) == PrintConstant(String(NextIndex(c))) && HasText(c', NextIndex(c), text)
  {
    hide Utf8, HasText, Be16;
    AddedText(c, text, [Utf8(text), StringTag(NextIndex(c))], 0);
  }

  lemma StringTagGrowth(c: ClassFile, text: seq<Byte>)
    requires Shape(c) && Text(text)
    ensures var c' := AddTags(c, [Utf8(text), StringTag(NextIndex(c))]);
            Shape(c') && |Print(c')| == |Print(c)| + |text| + 3 + 3
  {
    var tag := StringTag(NextIndex(c));
    var tags := [Utf8(text), tag];
    assert Plain(tag) && |tag| == 3;
    Utf8Plain(text);
    ConcatOne(Utf8(text));
    ConcatSnocSize([Utf8(text)], tag);
    assert [Utf8(text)] + [tag] == tags;
    AddTagsKeep(c, tags);
    PrintSize(c);
    PrintSize(AddTags(c, tags));
  }

  /** One call of an edit function. */
  method Perform(info: Info, e: Edit)
    requires info.Valid() && Applicable(info.Value(), e) && info.RoomFor(CostOf(e))
    modifies info, info.constantPool, info.fields, info.methods
    ensures info.Valid() && info.Value() == Apply(old(info.Value()), e)
  {
    hide Shape, Print, Utf8, Member, MemberInfo, CodeAttribute, Native, Renamed;
    match e {
      case NameAndType(name, desc) => var _ := info.AddNameAndTypeTag(name, desc);
      case MethodRef(classIndex, nameAndTypeIndex) => var _ := info.AddMethodRefTag(classIndex, nameAndTypeIndex);
      case Copy(m, name) => info.CopyMethod(m, name);
      case ToNative(i) => info.ConvertMethodToNative(i);
      case NewMethod(name, desc, flags) => info.AddMethod(name, desc, flags, 0, 0, Absent);
      case NewCode(name, desc, flags, ms, ml, code) => info.AddMethod(name, desc, flags, ms, ml, Present(code));
      case NewField(name, desc, flags) => info.AddField(name, desc, flags);
    }
  }

  /**
   * Any sequence of edits whose additions fit the room left in each table: the tables stay inside their allocations
   * and stand for the edited file, and info->length is the number of bytes javaWriteClass will write, in 32 bits.
   */
  method PerformAll(info: Info, es: seq<Edit>)
    requires info.Valid() && AllApplicable(info.Value(), es) && info.RoomFor(TotalCost(es))
    modifies info, info.constantPool, info.fields, info.methods
    ensures info.Valid() && info.Value() == ApplyAll(old(info.Value()), es)
    ensures |Print(info.Value())| == |Print(old(info.Value()))| + TotalGrowth(old(info.Value()), es)
    ensures old(info.Value()).pool <= info.Value().pool
    decreases |es|
  {
    hide Shape, Print, Applicable, Apply, Growth, CostOf;
    EditsKeep(info.Value(), es);
    if es != [] {
      EditKeeps(info.Value(), es[0]);
      Perform(info, es[0]);
      PerformAll(info, es[1..]);
    }
  }

  // ---------------------------------------------------------------- whole files

  /**
   * javaReadClass: of data that is a well-formed class file it recovers exactly that file, with room for
   * 100 more entries in each table; data without the magic number is refused.
   */
  method ReadClass(data: seq<Byte>, ghost c: ClassFile) returns (info: Info?)
    requires |data| >= 4
    requires data[..4] == MAGIC ==> WellFormed(c) && data == Print(c)
    ensures info == null <==> data[..4] != MAGIC
    ensures info != null ==>
              && fresh(info) && fresh(info.constantPool) && fresh(info.fields) && fresh(info.methods)
              && info.Valid() && info.Value() == c && info.length == |data|
              && info.constantPool.Length == ROOM + |c.pool|
              && info.fields.Length == ROOM + |c.fields| && info.methods.Length == ROOM + |c.methods|
  {
    hide Be16, Concat, Shape, PoolOk, Member, Attribute, U16At;
    if data[..4] != MAGIC { return null; }
    ShapeFacts(c);
    TakePiece(MAGIC, PrintMinor(c), data);
    var rest := data[4..];
    var minor, major;
    minor, rest := ReadWord(rest, c.minor, PrintMajor(c));
    major, rest := ReadWord(rest, c.major, PrintPool(c));
    var poolCount, pool;
    poolCount, rest := ReadWord(rest, |c.pool| + 1, Concat(c.pool) + PrintAccess(c));
    pool, rest := ReadPool(rest, poolCount - 1, c.pool, PrintAccess(c));
    var access, thisClass, superClass;
    access, rest := ReadWord(rest, c.access, PrintThis(c));
    thisClass, rest := ReadWord(rest, c.thisClass, PrintSuper(c));
    superClass, rest := ReadWord(rest, c.superClass, PrintInterfaces(c));
    var interfacesCount;
    interfacesCount, rest := ReadWord(rest, |c.interfaces| / 2, c.interfaces + PrintFields(c));
    TakePiece(c.interfaces, PrintFields(c), rest);
    var interfaces := rest[..interfacesCount * 2];
    rest := rest[interfacesCount * 2..];
    var fieldsCount, fields;
    fieldsCount, rest := ReadWord(rest, |c.fields|, Concat(c.fields) + PrintMethods(c));
    fields, rest := ReadMembers(rest, fieldsCount, c.fields, PrintMethods(c));
    var methodsCount, methods;
    methodsCount, rest := ReadWord(rest, |c.methods|, Concat(c.methods) + PrintAttributes(c));
    methods, rest := ReadMembers(rest, methodsCount, c.methods, PrintAttributes(c));
    var attributesCount, attributes;
    attributesCount, rest := ReadWord(rest, |c.attributes|, Concat(c.attributes) + []);
    attributes, rest := ReadAttributes(rest, attributesCount, c.attributes, []);
    info := new Info(ClassFile(minor, major, pool[..poolCount - 1], access, thisClass, superClass, interfaces,
                               fields[..fieldsCount], methods[..methodsCount], attributes[..]),
                     pool, fields, methods, attributes, |data| - |rest|);
    LengthOfRead(info, c);
  }

  lemma ShapeFacts(c: ClassFile)
    requires Shape(c)
    ensures PoolOk(c.pool) && |c.interfaces| % 2 == 0 && forall f | f in c.fields :: Member(f)
    ensures (forall m | m in c.methods :: Member(m)) && forall a | a in c.attributes :: Attribute(a)
  {
  }

  lemma LengthOfRead(info: Info, c: ClassFile)
    requires info.InBounds() && info.Value() == c && WellFormed(c) && info.length == |Print(c)|
    ensures info.Valid()
  {
    hide Print, Shape, CountsFit;
  }

  /** Of a file that fits 32 bits, info->length is the size. */
  lemma LengthIsSize(info: Info)
    requires info.Valid() && |Print(info.Value())| < U32_RANGE
    ensures info.length == |Print(info.Value())|
  {
    hide Print, Shape, CountsFit;
  }

  method ReadWord(mem: seq<Byte>, ghost x: nat, ghost t: seq<Byte>) returns (v: nat, rest: seq<Byte>)
    requires mem == Be16(x) + t && x < 65536
    ensures v == x && rest == t
  {
    TakeWord(x, t, mem);
    v, rest := U16At(mem, 0), mem[2..];
  }

  /** Writing one piece of what is still to be written. */
  lemma Emitted(done: seq<Byte>, piece: seq<Byte>, todo: seq<Byte>, whole: seq<Byte>)
    requires done + (piece + todo) == whole
    ensures (done + piece) + todo == whole
  {
  }

  method PutWord(dest: array<Byte>, pos: nat, v: nat, ghost todo: seq<Byte>, ghost whole: seq<Byte>) returns (pos': nat)
    requires pos <= dest.Length && |whole| <= dest.Length && dest[..pos] + (Be16(v) + todo) == whole
    modifies dest
    ensures pos' <= dest.Length && dest[..pos'] + todo == whole
  {
    hide Be16;
    Emitted(dest[..pos], Be16(v), todo, whole);
    assert |dest[..pos] + (Be16(v) + todo)| == pos + 2 + |todo|;
    pos' := Put(dest, pos, Be16(v));
  }

  /** javaWriteClass: the bytes of the class file the tables stand for. */
  method WriteClass(dest: array<Byte>, info: Info)
    requires info.Valid() && |Print(info.Value())| <= dest.Length
    modifies dest
    ensures dest[..|Print(info.Value())|] == Print(info.Value())
  {
    hide Be16, Concat, PoolOk, Member, Attribute;
    ghost var c := info.Value();
    ghost var whole := Print(c);
    var pos := Put(dest, 0, MAGIC);
    assert dest[..pos] == MAGIC;
    pos := PutWord(dest, pos, info.minor, PrintMajor(c), whole);
    pos := PutWord(dest, pos, info.major, PrintPool(c), whole);
    pos := PutWord(dest, pos, info.constantPoolCount, Concat(c.pool) + PrintAccess(c), whole);
    Emitted(dest[..pos], Concat(c.pool), PrintAccess(c), whole);
    pos := WritePool(dest, pos, info.constantPool, info.constantPoolCount - 1);
    pos := PutWord(dest, pos, info.access, PrintThis(c), whole);
    pos := PutWord(dest, pos, info.thisClass, PrintSuper(c), whole);
    pos := PutWord(dest, pos, info.superClass, PrintInterfaces(c), whole);
    pos := PutWord(dest, pos, |info.interfaces| / 2, c.interfaces + PrintFields(c), whole);
    Emitted(dest[..pos], c.interfaces, PrintFields(c), whole);
    pos := Put(dest, pos, info.interfaces);
    pos := PutWord(dest, pos, info.fieldsCount, Concat(c.fields) + PrintMethods(c), whole);
    Emitted(dest[..pos], Concat(c.fields), PrintMethods(c), whole);
    pos := WriteMembers(dest, pos, info.fields, info.fieldsCount);
    pos := PutWord(dest, pos, info.methodsCount, Concat(c.methods) + PrintAttributes(c), whole);
    Emitted(dest[..pos], Concat(c.methods), PrintAttributes(c), whole);
    pos := WriteMembers(dest, pos, info.methods, info.methodsCount);
    pos := PutWord(dest, pos, info.attributes.Length, Concat(c.attributes) + [], whole);
    Emitted(dest[..pos], Concat(c.attributes), [], whole);
    pos := WriteAttributes(dest, pos, info.attributes);
  }

  // ---------------------------------------------------------------- finding and instrumenting a method

  /** A C string ends at its first NUL. */
  function CString(s: seq<Byte>): seq<Byte> {
    if s == [] || s[0] == 0 then [] else [s[0]] + CString(s[1..])
  }

  predicate Utf8At(c: ClassFile, k: nat) {
    1 <= k <= |c.pool| && Entry(c.pool[k - 1]) && c.pool[k - 1][0] == TAG_UTF8
  }

  /** Method i carries this name and descriptor. */
  predicate Carries(c: ClassFile, i: nat, name: seq<Byte>, desc: seq<Byte>)
    requires i < |c.methods| && Resolves(c, c.methods[i])
  {
    && CString(TextAt(c, U16At(c.methods[i], 2))) == CString(name)
    && CString(TextAt(c, U16At(c.methods[i], 4))) == CString(desc)
  }

  /** The method's name and descriptor indices lead to Utf8 entries. */
  predicate Resolves(c: ClassFile, m: seq<Byte>) {
    |m| >= 8 && Utf8At(c, U16At(m, 2)) && Utf8At(c, U16At(m, 4))
  }

  predicate NamesResolve(c: ClassFile) {
    forall i | 0 <= i < |c.methods| :: Resolves(c, c.methods[i])
  }

  /** javaGetUtf8String */
  method GetUtf8String(info: Info, k: nat) returns (s: seq<Byte>)
    requires info.InBounds() && Utf8At(info.Value(), k)
    ensures s == TextAt(info.Value(), k)
  {
    assert info.Value().pool[k - 1] == info.constantPool[k - 1];
    var cp := info.constantPool[k - 1];
    var len := U16At(cp, 1);
    s := cp[3..3 + len];
  }

  /** index is the first method with this name and descriptor, or -1 and there is none. */
  predicate FirstMatch(c: ClassFile, index: int, name: seq<Byte>, desc: seq<Byte>)
    requires NamesResolve(c)
  {
    && -1 <= index < |c.methods|
    && (index >= 0 ==> Carries(c, index, name, desc))
    && forall j | 0 <= j < (if index >= 0 then index else |c.methods|) :: !Carries(c, j, name, desc)
  }

  /** javaFindMethodIndex: the first method with this name and descriptor, or -1 when there is none. */
  method FindMethodIndex(info: Info, name: seq<Byte>, desc: seq<Byte>) returns (index: int)
    requires info.InBounds() && NamesResolve(info.Value())
    ensures FirstMatch(info.Value(), index, name, desc)
  {
    hide CString, Utf8At;
    index := -1;
    var i := 0;
    while i < info.methodsCount
      invariant 0 <= i <= info.methodsCount
      invariant forall j | 0 <= j < i :: !Carries(info.Value(), j, name, desc)
    {
      assert info.Value().methods[i] == info.methods[i];
      assert Resolves(info.Value(), info.methods[i]);
      var addr := info.methods[i];
      var methodName := GetUtf8String(info, U16At(addr, 2));
      var methodDesc := GetUtf8String(info, U16At(addr, 4));
      if CString(name) == CString(methodName) && CString(desc) == CString(methodDesc) {
        return i;
      }
      i := i + 1;
    }
  }

  lemma MatchInRange(c: ClassFile, index: int, name: seq<Byte>, desc: seq<Byte>)
    requires NamesResolve(c) && FirstMatch(c, index, name, desc)
    ensures -1 <= index < |c.methods|
  {
  }

  lemma MatchCarries(c: ClassFile, index: nat, name: seq<Byte>, desc: seq<Byte>)
    requires NamesResolve(c) && FirstMatch(c, index, name, desc)
    ensures index < |c.methods| && Carries(c, index, name, desc)
  {
  }

  /** Reading a well-formed class file and writing it back returns the same bytes. */
  method ReadThenWrite(data: seq<Byte>, ghost c: ClassFile) returns (out: array<Byte>)
    requires WellFormed(c) && data == Print(c)
    ensures out[..] == data
  {
    hide *;
    StartsWithMagic(c);
    FitsSize(c);
    var info := ReadClass(data, c);
    out := new Byte[info.length];
    WriteClass(out, info);
    assert out[..info.length] == out[..];
  }

  lemma StartsWithMagic(c: ClassFile)
    ensures |Print(c)| >= 4 && Print(c)[..4] == MAGIC
  {
  }

  /**
   * The class-load hook of src/javaagent.c: find the method, add a copy under a new name, make the
   * original native, and write the file in a buffer of info->length bytes. What is written is again a
   * well-formed class file, and it is the instrumented one.
   */
  method Instrument(data: seq<Byte>, ghost c: ClassFile, name: seq<Byte>, desc: seq<Byte>, newName: seq<Byte>)
    returns (out: array?<Byte>)
    requires WellFormed(c) && data == Print(c) && NamesResolve(c) && Text(newName)
    requires |c.pool| + 2 < 65536 && |c.methods| + 1 < 65536 && |data| + |newName| + 11 < 4294967296
    ensures out == null <==> FirstMatch(c, -1, name, desc)
    ensures out != null ==> exists i: nat, c': ClassFile ::
              IsInstrumented(c, i, name, desc, newName, c') && out[..] == Print(c')
  {
    hide Print, Shape, Bounded, Carries, FirstMatch, Instrumented, Native, Renamed, Member, Utf8;
    StartsWithMagic(c);
    var info := ReadClass(data, c);
    var index := FindMethodIndex(info, name, desc);
    if index == -1 { return null; }
    assert 0 <= index < |c.methods| by { MatchInRange(c, index, name, desc); }
    OneFirstMatch(c, index, name, desc);
    CopyThenConvertWellFormed(c, index, newName);
    assert Carries(c, index, name, desc) by { MatchCarries(c, index, name, desc); }
    FoundAgain(c, index, name, desc, newName, ConvertToNative(CopyMethod(c, c.methods[index], newName), index));
    assert info.Value().methods[index] == info.methods[index];
    info.CopyMethod(info.methods[index], newName);
    info.ConvertMethodToNative(index);
    ghost var c' := info.Value();
    assert |Print(c')| < U32_RANGE by { FitsSize(c'); }
    LengthIsSize(info);
    var dest := new Byte[info.length];
    WriteClass(dest, info);
    assert dest[..info.length] == dest[..];
    assert IsInstrumented(c, index, name, desc, newName, c');
    out := dest;
  }

  /** c' is the well-formed file that instrumenting the first method i of this name and descriptor leaves. */
  ghost predicate IsInstrumented(c: ClassFile, i: nat, name: seq<Byte>, desc: seq<Byte>, newName: seq<Byte>,
      c': ClassFile)
    requires NamesResolve(c)
  {
    && FirstMatch(c, i, name, desc) && i < |c.methods| && |c.methods[i]| >= 8
    && Instrumented(c, i, newName, c') && WellFormed(c')
    && NamesResolve(c') && Carries(c', i, name, desc) && Carries(c', |c.methods|, newName, desc)
  }

  /** A reader of the instrumented file finds the copy under its new name, and the stub under the old one. */
  lemma FoundAgain(c: ClassFile, i: nat, name: seq<Byte>, desc: seq<Byte>, newName: seq<Byte>, c': ClassFile)
    requires NamesResolve(c) && i < |c.methods| && |c.methods[i]| >= 8 && Carries(c, i, name, desc)
    requires Instrumented(c, i, newName, c')
    ensures NamesResolve(c') && Carries(c', i, name, desc) && Carries(c', |c.methods|, newName, desc)
  {
    var n, copy := |c.methods|, c'.methods[|c.methods|];
    hide Utf8, CString;
    assert Resolves(c, c.methods[i]);
    assert U16At(copy, 4) == U16At(c.methods[i], 4) by {
      assert copy[4] == copy[4..][0] && copy[5] == copy[4..][1];
    }
    assert forall k | Utf8At(c, k) :: Utf8At(c', k) && TextAt(c', k) == TextAt(c, k);
    assert Resolves(c', copy);
    forall j | 0 <= j < |c'.methods| ensures Resolves(c', c'.methods[j]) {
      if j < n { assert Resolves(c, c.methods[j]); }
    }
  }

  lemma FitsSize(c: ClassFile)
    requires WellFormed(c)
    ensures |Print(c)| < U32_RANGE
  {
  }

  lemma OneFirstMatch(c: ClassFile, i: nat, name: seq<Byte>, desc: seq<Byte>)
    requires NamesResolve(c) && FirstMatch(c, i, name, desc)
    ensures !FirstMatch(c, -1, name, desc)
  {
  }

  /** The edits can be made one after the other, in the room javaReadClass leaves and the widths of counts and size. */
  ghost predicate Editable(c: ClassFile, es: seq<Edit>)
    requires Shape(c)
  {
    && AllApplicable(c, es)
    && (var cost := TotalCost(es);
        cost.pool <= ROOM && cost.fields <= ROOM && cost.methods <= ROOM && CountsLeft(c, cost))
    && |Print(c)| + TotalGrowth(c, es) < U32_RANGE
  }

  ghost predicate IsEdited(c: ClassFile, es: seq<Edit>, c': ClassFile)
    requires Shape(c)
  {
    AllApplicable(c, es) && c' == ApplyAll(c, es) && WellFormed(c')
  }

  /**
   * Read, edit, write, and read again: any sequence of edits that adds no more than 100 entries to each table, and
   * for which the counts still fit 16 bits and the size 32, comes out of the written bytes as it went in.
   */
  method EditThenReread(data: seq<Byte>, ghost c: ClassFile, es: seq<Edit>) returns (out: array<Byte>, again: Info?)
    requires WellFormed(c) && data == Print(c) && Editable(c, es)
    ensures again != null && again.Valid() && IsEdited(c, es, again.Value()) && out[..] == Print(again.Value())
  {
    hide Print, Shape, CountsFit, TotalGrowth, ApplyAll, AllApplicable, TotalCost;
    StartsWithMagic(c);
    EditsFit(c, es);
    var info := ReadClass(data, c);
    PerformAll(info, es);
    LengthIsSize(info);
    out := new Byte[info.length];
    WriteClass(out, info);
    ghost var c' := info.Value();
    assert out[..info.length] == out[..];
    StartsWithMagic(c');
    again := ReadClass(out[..], c');
  }

  // ---------------------------------------------------------------- the format is unambiguous

  lemma SameWord(x: nat, y: nat, t: seq<Byte>, u: seq<Byte>)
    requires Be16(x) + t == Be16(y) + u && x < 65536 && y < 65536
    ensures x == y && t == u
  {
    hide Be16;
    TakeWord(x, t, Be16(x) + t);
    TakeWord(y, u, Be16(y) + u);
  }

  lemma SamePiece(a: seq<Byte>, b: seq<Byte>, t: seq<Byte>, u: seq<Byte>)
    requires a + t == b + u && |a| == |b|
    ensures a == b && t == u
  {
    TakePiece(a, t, a + t);
    TakePiece(b, u, b + u);
  }

  lemma {:induction false} SamePool(p: seq<seq<Byte>>, q: seq<seq<Byte>>, t: seq<Byte>, u: seq<Byte>)
    requires PoolOk(p) && PoolOk(q) && |p| == |q| && Concat(p) + t == Concat(q) + u
    ensures p == q && t == u
    decreases |p|
  {
    if p == [] {
      ConcatNone(t);
      ConcatNone(u);
    } else {
      hide PoolOk, Concat, Entry;
      var s := Concat(p) + t;
      var p' := PoolHead(p, t, s);
      var q' := PoolHead(q, u, s);
      SamePool(p', q', t, u);
      assert p == (if Wide(p[0]) then [p[0], []] else [p[0]]) + p';
      assert q == (if Wide(q[0]) then [q[0], []] else [q[0]]) + q';
    }
  }

  lemma {:induction false} SameMembers(p: seq<seq<Byte>>, q: seq<seq<Byte>>, t: seq<Byte>, u: seq<Byte>)
    requires (forall m | m in p :: Member(m)) && (forall m | m in q :: Member(m))
    requires |p| == |q| && Concat(p) + t == Concat(q) + u
    ensures p == q && t == u
    decreases |p|
  {
    if p == [] {
      ConcatNone(t);
      ConcatNone(u);
    } else {
      hide Member, MemberLength, Concat;
      var s := Concat(p) + t;
      FirstEntry(p, t, s);
      FirstEntry(q, u, s);
      MemberLengthLocal(p[0], Concat(p[1..]) + t, s);
      MemberLengthLocal(q[0], Concat(q[1..]) + u, s);
      SamePiece(p[0], q[0], Concat(p[1..]) + t, Concat(q[1..]) + u);
      SameMembers(p[1..], q[1..], t, u);
      assert p == [p[0]] + p[1..] && q == [q[0]] + q[1..];
    }
  }

  lemma {:induction false} SameAttributes(p: seq<seq<Byte>>, q: seq<seq<Byte>>)
    requires (forall a | a in p :: Attribute(a)) && (forall a | a in q :: Attribute(a))
    requires |p| == |q| && Concat(p) == Concat(q)
    ensures p == q
    decreases |p|
  {
    if p != [] {
      assert Attribute(p[0]) && Attribute(q[0]);
      assert Concat(p)[2] == p[0][2] && Concat(p)[3] == p[0][3] && Concat(p)[4] == p[0][4] && Concat(p)[5] == p[0][5];
      assert Concat(q)[2] == q[0][2] && Concat(q)[3] == q[0][3] && Concat(q)[4] == q[0][4] && Concat(q)[5] == q[0][5];
      SamePiece(p[0], q[0], Concat(p[1..]), Concat(q[1..]));
      SameAttributes(p[1..], q[1..]);
      assert p == [p[0]] + p[1..] && q == [q[0]] + q[1..];
    }
  }

  lemma SameFromFields(c: ClassFile, d: ClassFile)
    requires WellFormed(c) && WellFormed(d) && PrintFields(c) == PrintFields(d)
    ensures c.fields == d.fields && c.methods == d.methods && c.attributes == d.attributes
  {
    hide Be16, Concat, Member, Attribute, PoolOk;
    SameWord(|c.fields|, |d.fields|, Concat(c.fields) + PrintMethods(c), Concat(d.fields) + PrintMethods(d));
    SameMembers(c.fields, d.fields, PrintMethods(c), PrintMethods(d));
    SameWord(|c.methods|, |d.methods|, Concat(c.methods) + PrintAttributes(c), Concat(d.methods) + PrintAttributes(d));
    SameMembers(c.methods, d.methods, PrintAttributes(c), PrintAttributes(d));
    SameWord(|c.attributes|, |d.attributes|, Concat(c.attributes) + [], Concat(d.attributes) + []);
    SamePiece(Concat(c.attributes), Concat(d.attributes), [], []);
    SameAttributes(c.attributes, d.attributes);
  }

  /** Bytes determine the class file: two well-formed files that print alike are the same. */
  lemma PrintInjective(c: ClassFile, d: ClassFile)
    requires WellFormed(c) && WellFormed(d) && Print(c) == Print(d)
    ensures c == d
  {
    hide Be16, Concat, Member, Attribute, PoolOk, PrintFields;
    SamePiece(MAGIC, MAGIC, PrintMinor(c), PrintMinor(d));
    SameWord(c.minor, d.minor, PrintMajor(c), PrintMajor(d));
    SameWord(c.major, d.major, PrintPool(c), PrintPool(d));
    SameWord(|c.pool| + 1, |d.pool| + 1, Concat(c.pool) + PrintAccess(c), Concat(d.pool) + PrintAccess(d));
    SamePool(c.pool, d.pool, PrintAccess(c), PrintAccess(d));
    SameWord(c.access, d.access, PrintThis(c), PrintThis(d));
    SameWord(c.thisClass, d.thisClass, PrintSuper(c), PrintSuper(d));
    SameWord(c.superClass, d.superClass, PrintInterfaces(c), PrintInterfaces(d));
    SameWord(|c.interfaces| / 2, |d.interfaces| / 2, c.interfaces + PrintFields(c), d.interfaces + PrintFields(d));
    SamePiece(c.interfaces, d.interfaces, PrintFields(c), PrintFields(d));
    SameFromFields(c, d);
  }
}
