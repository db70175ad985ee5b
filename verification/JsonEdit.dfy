/**
 JSON Patch application on trees: edits at the end of a pointer, the single operations, and
 running a list of them. The operations are those of apply_patch, with its status codes.
 */
module JsonEdit {
  import opened Json
  import opened JsonTree
  import opened JsonPointer
  import opened JsonCompare

  datatype Edited = Edited(status: int, doc: Json)

  datatype Edit = Detach(child: string) | Insert(child: string, value: Json)

  /** Detaching or inserting a child of v. Detaching from an object never regards case. */
  function Perform(v: Json, e: Edit, cs: bool): Edited
  {
    match e
    case Detach(child) =>
      (match v
       case Array(items) =>
         var i := DecodeIndex(child);
         if i.Some? && i.value < |items| then Edited(0, Array(RemoveAt(items, i.value))) else Edited(13, v)
       case Object(ms) =>
         var i := IndexOf(ms, child, false);
         if i < |ms| then Edited(0, Object(RemoveAt(ms, i))) else Edited(13, v)
       case _ => Edited(13, v))
    case Insert(child, x) =>
      (match v
       case Array(items) =>
         if child == "-" then Edited(0, Array(items + [x]))
         else
           var i := DecodeIndex(child);
           if i == None then Edited(11, v)
           else if i.value <= |items| then Edited(0, Array(InsertAt(items, i.value, x)))
           else Edited(10, v)
       case Object(ms) =>
         var i := IndexOf(ms, child, cs);
         var rest := if i < |ms| then RemoveAt(ms, i) else ms;
         Edited(0, Object(rest + [Member(child, x)]))
       case _ => Edited(9, v))
  }

  function WithChild(v: Json, k: nat, c: Json): Json
    requires k < Children(v)
  {
    if v.Array? then Array(v.items[k := c]) else Object(v.members[k := Member(v.members[k].key, c)])
  }

  /** The edit at the node that p leads to. */
  function EditAt(v: Json, p: string, e: Edit, cs: bool): Edited
    decreases v
  {
    if p == "" || p[0] != '/' then Perform(v, e, cs)
    else
      var k := Child(v, p[1..], cs);
      if k == None then Edited(if e.Detach? then 13 else 9, v)
      else
        var r := EditAt(ChildAt(v, k.value), RestOf(p[1..]), e, cs);
        Edited(r.status, if r.status == 0 then WithChild(v, k.value, r.doc) else v)
  }

  /** strrchr: behind the last slash, or 0 when there is none. */
  function AfterLastSlash(p: string): (i: nat)
    ensures i <= |p| && (i > 0 ==> p[i - 1] == '/') && '/' !in p[i..]
  {
    if p == "" then 0
    else if p[|p| - 1] == '/' then |p|
    else
      var i := AfterLastSlash(p[..|p| - 1]);
      assert p[i..] == p[..|p| - 1][i..] + [p[|p| - 1]];
      i
  }

  /** detach_path followed by deletion of the item */
  function RemovePath(doc: Json, path: string, cs: bool): Edited
  {
    var i := AfterLastSlash(path);
    if i == 0 then Edited(13, doc) else EditAt(doc, path[..i - 1], Detach(DecodeInPlace(path[i..])), cs)
  }

  function AddPath(doc: Json, path: string, value: Json, cs: bool): Edited
  {
    var i := AfterLastSlash(path);
    if i == 0 then Edited(9, doc) else EditAt(doc, path[..i - 1], Insert(DecodeInPlace(path[i..]), value), cs)
  }

  datatype Opcode = Add | Remove | Replace | Move | Copy | Test

  datatype PatchOp = PatchOp(op: Opcode, path: string, value: Option<Json>, from: Option<string>)

  function NodeAt(v: Json, path: seq<nat>): Option<Json>
    decreases v
  {
    if path == [] then Some(v)
    else if path[0] < Children(v) then NodeAt(ChildAt(v, path[0]), path[1..])
    else None
  }

  function Lookup(doc: Json, pointer: string, cs: bool): Option<Json>
  {
    var l := Locate(doc, pointer, cs);
    if l == None then None else NodeAt(doc, l.value)
  }

  /** apply_patch behind the decoding of the patch object. The invalid item left by removing the root is Null here. */
  function ApplyOp(doc: Json, p: PatchOp, cs: bool): Edited
  {
    if p.op == Test then
      var node := Lookup(doc, p.path, cs);
      Edited(if node.Some? && p.value.Some? && CompareJson(node.value, p.value.value, cs) then 0 else 1, doc)
    else if p.path == "" && p.op == Remove then Edited(0, Null)
    else if p.path == "" && (p.op == Replace || p.op == Add) then
      if p.value == None then Edited(7, doc) else Edited(0, p.value.value)
    else if p.op == Remove then RemovePath(doc, p.path, cs)
    else if p.op == Replace then
      var r := RemovePath(doc, p.path, cs);
      if r.status != 0 then Edited(13, doc)
      else if p.value == None then Edited(7, r.doc)
      else AddPath(r.doc, p.path, p.value.value, cs)
    else if p.op == Add then
      if p.value == None then Edited(7, doc) else AddPath(doc, p.path, p.value.value, cs)
    else if p.from == None then Edited(4, doc)
    else
      var item := if p.op == Copy then Lookup(doc, p.from.value, cs) else DetachedItem(doc, p.from.value, cs);
      if item == None then Edited(5, doc)
      else AddPath(if p.op == Copy then doc else RemovePath(doc, p.from.value, cs).doc, p.path, item.value, cs)
  }

  /** The item that detach_path would hand over. */
  function DetachedItem(doc: Json, path: string, cs: bool): Option<Json>
  {
    var i := AfterLastSlash(path);
    if i == 0 then None
    else
      var parent := Lookup(doc, path[..i - 1], cs);
      var child := DecodeInPlace(path[i..]);
      if parent == None then None
      else
        match parent.value
        case Array(items) =>
          var k := DecodeIndex(child);
          if k.Some? && k.value < |items| then Some(items[k.value]) else None
        case Object(ms) =>
          var k := IndexOf(ms, child, false);
          if k < |ms| then Some(ms[k].value) else None
        case _ => None
  }

  function ApplyAll(doc: Json, ps: seq<PatchOp>, cs: bool): Edited
    decreases |ps|
  {
    if ps == [] then Edited(0, doc)
    else
      var r := ApplyOp(doc, ps[0], cs);
      if r.status != 0 then r else ApplyAll(r.doc, ps[1..], cs)
  }

  lemma {:induction false} ApplyConcat(doc: Json, a: seq<PatchOp>, b: seq<PatchOp>, cs: bool)
    requires ApplyAll(doc, a, cs).status == 0
    ensures ApplyAll(doc, a + b, cs) == ApplyAll(ApplyAll(doc, a, cs).doc, b, cs)
    decreases |a|
  {
    if a == [] {
      assert a + b == b;
    } else {
      hide ApplyOp;
      assert (a + b)[1..] == a[1..] + b;
      ApplyConcat(ApplyOp(doc, a[0], cs).doc, a[1..], b, cs);
    }
  }
}
