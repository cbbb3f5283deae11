/** The Huffman dictionary for title texts: a binary trie built code by code, and the decoder that
  walks it. */
module HuffmanTrie {
  import opened Basics
  import opened Bytes

  type Path = seq<bool>
  type Text = seq<byte>

  /** The nodes of a trie by the path that leads to them, with their values. */
  type Tree = map<Path, Option<Text>>

  // -------------------------------------------------------------------------- the trie as a value

  function Then(path: Path, bit: bool): Path { path + [bit] }

  function Prefixes(path: Path): set<Path> { set k | 0 <= k <= |path| :: path[..k] }

  lemma PrefixesAre(path: Path, p: Path)
    ensures p in Prefixes(path) <==> p <= path
  {
    if p <= path {
      assert p == path[..|p|];
    }
  }

  /** The trie with the nodes along a path added. */
  function Grown(t: Tree, path: Path): Tree {
    map p | p in t.Keys + Prefixes(path) :: if p in t then t[p] else None
  }

  /** The path that a code spells; other characters are passed over. */
  function Digits(code: string): Path {
    if code == "" then []
    else
      var init, c := Digits(code[..|code| - 1]), code[|code| - 1];
      if IsDigit(c) then Then(init, c == '1') else init
  }

  predicate IsDigit(c: char) { c == '0' || c == '1' }

  /** A code's value is stored when its last character is a digit and makes a new node. */
  predicate Stores(t: Tree, code: string) {
    code != "" && IsDigit(code[|code| - 1]) && Digits(code) !in t
  }

  function Inserted(t: Tree, code: string, value: Text): Tree {
    var grown := Grown(t, Digits(code));
    if Stores(t, code) then grown[Digits(code) := Some(value)] else grown
  }

  datatype Entry = Entry(code: string, value: Text)

  function Build(entries: seq<Entry>): Tree {
    if entries == [] then map[[] := None]
    else Inserted(Build(entries[..|entries| - 1]), entries[|entries| - 1].code, entries[|entries| - 1].value)
  }

  /** How many values a dictionary stores. */
  function Stored(entries: seq<Entry>): nat {
    if entries == [] then 0
    else
      var init := entries[..|entries| - 1];
      Stored(init) + if Stores(Build(init), entries[|entries| - 1].code) then 1 else 0
  }

  // --------------------------------------------------------------------------- the trie in memory

  class HuffmanNode {
    var value: Option<Text>
    var p0: HuffmanNode?
    var p1: HuffmanNode?

    constructor ()
      ensures value == None && p0 == null && p1 == null
    {
      value, p0, p1 := None, null, null;
    }

    function Child(bit: bool): HuffmanNode?
      reads this
    {
      if bit then p1 else p0
    }
  }

  class HuffmanDictionary {
    const root: HuffmanNode
    ghost var at: map<Path, HuffmanNode>

    ghost function At(p: Path): HuffmanNode?
      reads this
    {
      if p in at then at[p] else null
    }

    /** The two pointers of a node lead to the nodes one bit further, if there are any. */
    ghost predicate Valid()
      reads this, at.Values
    {
      && At([]) == root
      && (forall p, x :: p in at ==> at[p].Child(x) == At(Then(p, x)))
      && (forall p, x :: Then(p, x) in at ==> p in at)
      && (forall p, q :: p in at && q in at && p != q ==> at[p] != at[q])
    }

    ghost function Contents(): Tree
      reads this, at.Values
    {
      map p | p in at :: at[p].value
    }

    lemma RootIsThere()
      requires Valid()
      ensures [] in at && at[[]] == root
    {
    }

    constructor ()
      ensures Valid() && fresh(at.Values) && Contents() == map[[] := None]
    {
      root := new HuffmanNode();
      at := map[[] := root];
    }

    lemma ChildIs(node: HuffmanNode, bit: bool, path: Path)
      requires Valid() && path in at && node == at[path]
      ensures path in Contents()
      ensures node.Child(bit) == null <==> Then(path, bit) !in Contents()
      ensures Then(path, bit) in Contents() ==> Then(path, bit) in at && node.Child(bit) == at[Then(path, bit)]
      ensures Then(path, bit) in Contents() ==> Contents()[Then(path, bit)] == at[Then(path, bit)].value
    {
    }

    /** A new node where there is none. */
    method Attach(node: HuffmanNode, bit: bool, ghost path: Path) returns (next: HuffmanNode)
      requires Valid() && path in at && node == at[path] && Then(path, bit) !in at
      modifies this, node
      ensures Valid() && fresh(next) && at == old(at)[Then(path, bit) := next]
      ensures Contents() == old(Contents())[Then(path, bit) := None]
    {
      hide Then;
      next := new HuffmanNode();
      if bit {
        node.p1 := next;
      } else {
        node.p0 := next;
      }
      ghost var was, q := at, Then(path, bit);
      at := at[q := next];
      NotEmpty(path, bit);
      forall p, x ensures (p in at ==> at[p].Child(x) == At(Then(p, x))) && (Then(p, x) in at ==> p in at) {
        ThenInjective(p, x, path, bit);
        ThenInjective(q, x, path, bit);
        ThenGrows(path, bit);
      }
    }

    /** One step down the trie, making the node if there is none. */
    method Descend(node: HuffmanNode, bit: bool, ghost path: Path) returns (next: HuffmanNode, isNew: bool)
      requires Valid() && path in at && node == at[path]
      modifies this, at.Values
      ensures Valid() && Then(path, bit) in at && next == at[Then(path, bit)]
      ensures isNew <==> Then(path, bit) !in old(at)
      ensures fresh(at.Values - old(at.Values)) && old(at.Values) <= at.Values
      ensures Contents() == if isNew then old(Contents())[Then(path, bit) := None] else old(Contents())
    {
      hide Then;
      isNew := node.Child(bit) == null;
      if isNew {
        ghost var was := at;
        next := Attach(node, bit, path);
        forall n | n in was.Values ensures n in at.Values {
          var p :| p in was && was[p] == n;
          assert p in at && at[p] == n;
        }
      } else {
        next := node.Child(bit);
      }
    }

    /** The body of the loop over the dictionary's lines: one code and its value. */
    method Insert(code: string, value: Text) returns (stored: bool)
      requires Valid()
      modifies this, at.Values
      ensures Valid() && fresh(at.Values - old(at.Values))
      ensures Contents() == Inserted(old(Contents()), code, value)
      ensures stored <==> Stores(old(Contents()), code)
    {
      hide Then, Valid, Grown, Digits;
      var node := root;
      var length := |code|;
      var i := 0;
      stored := false;
      ghost var t := Contents();
      RootIsThere();
      StartInsert(t, code);
      while i < length
        invariant 0 <= i <= length && Valid() && fresh(at.Values - old(at.Values))
        invariant Digits(code[..i]) in at && node == at[Digits(code[..i])]
        invariant Contents() == if stored then Inserted(t, code, value) else Grown(t, Digits(code[..i]))
        invariant stored <==> i == length && Stores(t, code)
      {
        ghost var path, bit := Digits(code[..i]), code[i] == '1';
        DigitStep(code, i);
        if IsDigit(code[i]) {
          var isNew;
          GrowStep(t, path, code[i] == '1');
          node, isNew := Descend(node, code[i] == '1', path);
          if isNew && length == i + 1 {
            SetValue(node, Then(path, code[i] == '1'), value);
            stored := true;
          }
        }
        i := i + 1;
      }
      assert code[..i] == code;
    }

    method SetValue(node: HuffmanNode, ghost path: Path, value: Text)
      requires Valid() && path in at && node == at[path]
      modifies node
      ensures Valid() && Contents() == old(Contents())[path := Some(value)]
    {
      node.value := Some(value);
    }

    /** huffman_read_dictionary, once its lines are parsed: what was in the trie is forgotten. */
    method ReadDictionary(entries: seq<Entry>) returns (count: nat)
      requires Valid()
      modifies this, at.Values
      ensures Valid() && fresh(at.Values - old(at.Values))
      ensures Contents() == Build(entries) && count == Stored(entries)
      ensures PrefixFree(entries) ==> count == |entries|
    {
      if PrefixFree(entries) {
        AllAreStored(entries);
      }
      hide PrefixFree;
      Clear();
      count := 0;
      var i := 0;
      while i < |entries|
        invariant 0 <= i <= |entries| && Valid() && fresh(at.Values - old(at.Values))
        invariant Contents() == Build(entries[..i]) && count == Stored(entries[..i])
      {
        assert entries[..i + 1][..i] == entries[..i];
        var stored := Insert(entries[i].code, entries[i].value);
        if stored {
          count := count + 1;
        }
        i := i + 1;
      }
      assert entries[..i] == entries;
    }

    method Clear()
      requires Valid()
      modifies this, root
      ensures Valid() && at.Values <= old(at.Values) && Contents() == map[[] := None]
    {
      RootIsThere();
      root.value, root.p0, root.p1 := None, null, null;
      at := map[[] := root];
    }

    /** huffman_decode, without debug output and for a text that fits.  The text goes to the front
      of `result`, closed by a zero. */
    method Decode(data: seq<byte>, result: array<byte>, resultMaxLength: nat) returns (ok: bool)
      requires Valid() && result.Length >= resultMaxLength
      requires |Walk(Contents(), DataBits(data), []).text| + 1 < Min(resultMaxLength, 4096)
      modifies result
      ensures ok <==> Walk(Contents(), DataBits(data), []).Ok?
      ensures ok ==> Holds(result[..], Walk(Contents(), DataBits(data), []).text)
    {
      hide DataBits, BytesBits, BitsFrom, Walk, Then, Valid, Contents, RestBits, HuffmanNode.Child;
      var max := Min(resultMaxLength, HUFFMAN_MAX_SIZE);
      var node: HuffmanNode, index: nat := root, 0;
      ghost var t, path, goal := Contents(), [], Walk(Contents(), DataBits(data), []);
      RootIsThere();
      PutNothing(goal);
      AllBits(data);
      var i := 0;
      while i < |data|
        invariant 0 <= i <= |data| && Valid() && t == Contents()
        invariant path in at && node == at[path] && index + 1 < max
        invariant goal == Put(result[..index], Walk(t, RestBits(data, i), path))
      {
        var byte := data[i];
        var mask: nat := if i == 0 then 0x20 else 0x80;
        NextByte(data, i);
        while mask > 0
          invariant Valid() && t == Contents()
          invariant path in at && node == at[path] && index + 1 < max
          invariant goal == Put(result[..index], Walk(t, BitsFrom(byte, mask) + RestBits(data, i + 1), path))
        {
          var bit := byte / mask % 2 == 1;
          NextBit(byte, mask, RestBits(data, i + 1));
          WalkStep(t, result[..index], bit, BitsFrom(byte, mask / 2) + RestBits(data, i + 1), path);
          ChildIs(node, bit, path);
          var next := node.Child(bit);
          if next == null {
            return false;
          }
          node, path := next, Then(path, bit);
          if node.value.Some? {
            index := Copy(result, index, node.value.value);
            RootIsThere();
            node, path := root, [];
          }
          mask := mask / 2;
        }
        NoBits(byte, RestBits(data, i + 1));
        i := i + 1;
      }
      NoMoreBits(t, data, result[..index], path);
      result[index] := 0;
      ok := true;
    }
  }

  /** memcpy of a value, and the new index. */
  method Copy(result: array<byte>, index: nat, value: Text) returns (index': nat)
    requires index + |value| <= result.Length
    modifies result
    ensures index' == index + |value| && result[..index'] == old(result[..index]) + value
  {
    forall k | 0 <= k < |value| {
      result[index + k] := value[k];
    }
    index' := index + |value|;
  }

  // ------------------------------------------------------------------------------- bits and walks

  const HUFFMAN_MAX_SIZE := 4096

  /** A text, closed by a zero, at the front of a buffer. */
  predicate Holds(buffer: seq<byte>, text: Text) {
    |text| < |buffer| && buffer[..|text|] == text && buffer[|text|] == 0
  }

  /** The bits of a byte from the mask down. */
  function BitsFrom(b: byte, mask: nat): Path {
    if mask == 0 then [] else [b / mask % 2 == 1] + BitsFrom(b, mask / 2)
  }

  function BytesBits(data: seq<byte>): Path {
    if data == [] then [] else BitsFrom(data[0], 0x80) + BytesBits(data[1..])
  }

  /** The coded bits: the first byte's last six, and all of the others. */
  function DataBits(data: seq<byte>): Path {
    if data == [] then [] else BitsFrom(data[0], 0x20) + BytesBits(data[1..])
  }

  /** The coded bits from byte i on. */
  function RestBits(data: seq<byte>, i: nat): Path
    requires i <= |data|
  {
    if i == 0 then DataBits(data) else BytesBits(data[i..])
  }

  function Power(k: nat): (p: nat)
    ensures p > 0
  {
    if k == 0 then 1 else 2 * Power(k - 1)
  }

  /** Bit i of a byte, from the top. */
  predicate BitOf(b: byte, i: nat)
    requires i < 8
  {
    b / Power(7 - i) % 2 == 1
  }

  /** From a mask that is a power of two down: its bit and all the lower ones. */
  lemma {:induction false} BitsFromAre(b: byte, e: nat, i: nat)
    requires i <= e < 8
    ensures |BitsFrom(b, Power(e))| == e + 1 && (BitsFrom(b, Power(e))[i] <==> BitOf(b, 7 - e + i))
    decreases e
  {
    if e > 0 {
      assert Power(e) / 2 == Power(e - 1);
      BitsFromAre(b, e - 1, if i > 0 then i - 1 else 0);
    } else {
      assert BitsFrom(b, 1) == [b / 1 % 2 == 1] + BitsFrom(b, 0);
    }
  }

  lemma BitsOfByte(b: byte, i: nat)
    requires i < 8
    ensures |BitsFrom(b, 0x80)| == 8 && (BitsFrom(b, 0x80)[i] <==> BitOf(b, i))
    ensures |BitsFrom(b, 0x20)| == 6 && (i < 6 ==> (BitsFrom(b, 0x20)[i] <==> BitOf(b, i + 2)))
  {
    assert Power(7) == 0x80 && Power(5) == 0x20;
    hide BitOf, BitsFrom, Power;
    BitsFromAre(b, 7, i);
    BitsFromAre(b, 5, if i < 6 then i else 0);
  }

  lemma {:induction false} BytesBitsAre(data: seq<byte>, i: nat, j: nat)
    requires i < |data| && j < 8
    ensures |BytesBits(data)| == 8 * |data| && (BytesBits(data)[8 * i + j] <==> BitOf(data[i], j))
    decreases |data|
  {
    hide BitOf, BitsFrom;
    BitsOfByte(data[0], j);
    if i > 0 {
      BytesBitsAre(data[1..], i - 1, j);
    } else if |data| > 1 {
      BytesBitsAre(data[1..], 0, j);
    }
  }

  /** The coded bits are those of the bytes from the top, without the first two. */
  lemma DataBitsAre(data: seq<byte>, i: nat, j: nat)
    requires i < |data| && j < 8 && (i == 0 ==> j >= 2)
    ensures |DataBits(data)| == 8 * |data| - 2 && (DataBits(data)[8 * i + j - 2] <==> BitOf(data[i], j))
  {
    hide BitOf, BitsFrom, BytesBits;
    BitsOfByte(data[0], if i == 0 then j - 2 else 0);
    if i > 0 {
      BytesBitsAre(data[1..], i - 1, j);
    } else if |data| > 1 {
      BytesBitsAre(data[1..], 0, j);
    } else {
      NoBytes();
    }
  }

  lemma NoBytes()
    ensures BytesBits([]) == []
  {
  }

  /** How a walk along bits ends: where in the trie, or at a bit that leaves it; and the values
      met on the way. */
  datatype Walked = Ok(text: Text, path: Path) | Failed(text: Text)

  function Put(s: Text, w: Walked): Walked {
    if w.Ok? then Ok(s + w.text, w.path) else Failed(s + w.text)
  }

  function Walk(t: Tree, bits: Path, path: Path): Walked
    decreases |bits|
  {
    if bits == [] then Ok([], path)
    else
      var next := Then(path, bits[0]);
      if next !in t then Failed([])
      else if t[next].Some? then Put(t[next].value, Walk(t, bits[1..], []))
      else Walk(t, bits[1..], next)
  }

  lemma PutNothing(w: Walked)
    ensures Put([], w) == w
  {
    assert [] + w.text == w.text;
  }

  lemma PutTwice(a: Text, b: Text, w: Walked)
    ensures Put(a, Put(b, w)) == Put(a + b, w)
  {
    assert a + (b + w.text) == a + b + w.text;
  }

  lemma WalkStep(t: Tree, out: Text, bit: bool, rest: Path, path: Path)
    ensures var next := Then(path, bit);
      Put(out, Walk(t, [bit] + rest, path))
        == if next !in t then Failed(out)
           else if t[next].Some? then Put(out + t[next].value, Walk(t, rest, []))
           else Put(out, Walk(t, rest, next))
  {
    var next := Then(path, bit);
    assert ([bit] + rest)[1..] == rest;
    if next !in t {
      assert out + [] == out;
    } else if t[next].Some? {
      PutTwice(out, t[next].value, Walk(t, rest, []));
    }
  }

  lemma AllBits(data: seq<byte>)
    ensures RestBits(data, 0) == DataBits(data)
  {
  }

  lemma NextByte(data: seq<byte>, i: nat)
    requires i < |data|
    ensures RestBits(data, i) == BitsFrom(data[i], if i == 0 then 0x20 else 0x80) + RestBits(data, i + 1)
  {
    if i > 0 {
      assert data[i..][1..] == data[i + 1..];
    }
  }

  lemma NextBit(b: byte, mask: nat, rest: Path)
    requires mask > 0
    ensures BitsFrom(b, mask) + rest == [b / mask % 2 == 1] + (BitsFrom(b, mask / 2) + rest)
  {
  }

  lemma NoBits(b: byte, rest: Path)
    ensures BitsFrom(b, 0) + rest == rest
  {
  }

  lemma NoMoreBits(t: Tree, data: seq<byte>, out: Text, path: Path)
    ensures Put(out, Walk(t, RestBits(data, |data|), path)) == Ok(out, path)
  {
    assert data[|data|..] == [] && out + [] == out;
  }

  lemma ThenInjective(p: Path, x: bool, q: Path, y: bool)
    ensures Then(p, x) == Then(q, y) <==> p == q && x == y
  {
    if Then(p, x) == Then(q, y) {
      assert Then(p, x)[..|p|] == p && Then(q, y)[..|q|] == q;
      assert Then(p, x)[|p|] == x && Then(q, y)[|q|] == y;
    }
  }

  lemma ThenGrows(p: Path, x: bool)
    ensures p != Then(p, x)
  {
  }

  lemma NotEmpty(p: Path, x: bool)
    ensures Then(p, x) != []
  {
  }

  lemma StartInsert(t: Tree, code: string)
    requires [] in t
    ensures code[..0] == "" && Digits(code[..0]) == [] && Grown(t, []) == t
  {
    GrownAtRoot(t);
  }

  lemma DigitStep(code: string, i: nat)
    requires i < |code|
    ensures Digits(code[..i + 1])
         == if IsDigit(code[i]) then Then(Digits(code[..i]), code[i] == '1') else Digits(code[..i])
    ensures i + 1 == |code| ==> code[..i + 1] == code
  {
    assert code[..i + 1][..i] == code[..i];
  }

  lemma GrownAtRoot(t: Tree)
    requires [] in t
    ensures Grown(t, []) == t
  {
    PrefixesAre([], []);
    assert Prefixes([]) == {[]};
  }

  lemma GrowStep(t: Tree, path: Path, bit: bool)
    requires [] in t
    ensures Grown(t, Then(path, bit)) == if Then(path, bit) in Grown(t, path) then Grown(t, path) else Grown(t, path)[Then(path, bit) := None]
    ensures Then(path, bit) in Grown(t, path) <==> Then(path, bit) in t
  {
    var q := Then(path, bit);
    forall p ensures p in Prefixes(q) <==> p in Prefixes(path) || p == q {
      PrefixesAre(q, p);
      PrefixesAre(path, p);
      if p <= q && p != q {
        assert p == q[..|p|] == path[..|p|];
      }
    }
    PrefixesAre(path, q);
  }

  // ------------------------------------------------------------------------ what the trie contains

  /** The first entry whose path goes through p, or the number of entries. */
  function FirstThrough(entries: seq<Entry>, p: Path): (i: nat)
    ensures i <= |entries| && (i < |entries| ==> p <= Digits(entries[i].code))
    ensures forall j :: 0 <= j < i ==> !(p <= Digits(entries[j].code))
  {
    if entries == [] then 0
    else if p <= Digits(entries[0].code) then 0
    else
      var i := FirstThrough(entries[1..], p);
      assert forall j :: 1 <= j < |entries| ==> entries[j] == entries[1..][j - 1];
      i + 1
  }

  predicate EndsWithDigit(code: string) { code != "" && IsDigit(code[|code| - 1]) }

  /** The value at p: that of the first entry that goes through p, if it ends there. */
  function ValueAt(entries: seq<Entry>, p: Path): Option<Text> {
    var i := FirstThrough(entries, p);
    if p != [] && i < |entries| && Digits(entries[i].code) == p && EndsWithDigit(entries[i].code)
    then Some(entries[i].value) else None
  }

  lemma FirstThroughMore(entries: seq<Entry>, e: Entry, p: Path)
    ensures FirstThrough(entries + [e], p)
         == if FirstThrough(entries, p) < |entries| then FirstThrough(entries, p)
            else if p <= Digits(e.code) then |entries| else |entries| + 1
  {
    var more := entries + [e];
    assert more[|entries|] == e && forall i :: 0 <= i < |entries| ==> more[i] == entries[i];
    assert p <= Digits(e.code) <==> p <= Digits(more[|entries|].code);
  }

  /** Any list of entries, in any order and with any clashes: the trie has a node for every prefix
      of every path, and a code is stored if and only if it is not a prefix of an earlier one. */
  lemma {:induction false} TrieContains(entries: seq<Entry>, p: Path)
    ensures p in Build(entries) <==> p == [] || FirstThrough(entries, p) < |entries|
    ensures p in Build(entries) ==> Build(entries)[p] == ValueAt(entries, p)
    decreases |entries|
  {
    if entries != [] {
      var n := |entries| - 1;
      var init, e := entries[..n], entries[n];
      assert entries == init + [e];
      TrieContains(init, p);
      TrieContains(init, Digits(e.code));
      FirstThroughMore(init, e, p);
      PrefixesAre(Digits(e.code), p);
      hide Digits, FirstThrough, Build;
      InsertedAt(Build(init), e.code, e.value, p);
      BuildLast(entries);
    }
  }

  lemma BuildLast(entries: seq<Entry>)
    requires entries != []
    ensures var n := |entries| - 1;
      Build(entries) == Inserted(Build(entries[..n]), entries[n].code, entries[n].value)
  {
  }

  lemma InsertedAt(t: Tree, code: string, value: Text, p: Path)
    ensures p in Inserted(t, code, value) <==> p in t || p <= Digits(code)
    ensures p in Inserted(t, code, value) ==>
      Inserted(t, code, value)[p]
        == if p in t then t[p] else if p == Digits(code) && EndsWithDigit(code) then Some(value) else None
  {
    hide Digits;
    PrefixesAre(Digits(code), p);
  }

  /** A dictionary whose codes are of zeros and ones, at least one, and no prefixes of each other. */
  predicate PrefixFree(entries: seq<Entry>) {
    && (forall i :: 0 <= i < |entries| ==> entries[i].code != "" && forall c :: c in entries[i].code ==> c == '0' || c == '1')
    && forall i, j :: 0 <= i < |entries| && 0 <= j < |entries| && i != j ==> !(entries[i].code <= entries[j].code)
  }

  function PathOf(entries: seq<Entry>, k: nat): Path {
    if k < |entries| then Digits(entries[k].code) else []
  }

  /** A code of zeros and ones spells a path of as many bits, 1 for a one; anything else in it would
      be passed over. */
  lemma {:induction false} DigitsSpellAll(code: string)
    requires forall c :: c in code ==> c == '0' || c == '1'
    ensures |Digits(code)| == |code| && forall i :: 0 <= i < |code| ==> (Digits(code)[i] <==> code[i] == '1')
  {
    if code != "" {
      var init := code[..|code| - 1];
      assert forall c :: c in init ==> c in code;
      DigitsSpellAll(init);
      assert code[|code| - 1] in code;
    }
  }

  lemma {:induction false} OthersArePassedOver(code: string, c: char, rest: string)
    requires c != '0' && c != '1'
    ensures Digits(code + [c] + rest) == Digits(code + rest)
    decreases |rest|
  {
    if rest == "" {
      assert (code + [c] + rest)[..|code|] == code == code + rest;
    } else {
      var init := rest[..|rest| - 1];
      assert (code + [c] + rest)[..|code| + |rest|] == code + [c] + init;
      assert (code + rest)[..|code + rest| - 1] == code + init;
      OthersArePassedOver(code, c, init);
    }
  }

  lemma PathsArePrefixes(a: string, b: string)
    requires (forall c :: c in a ==> c == '0' || c == '1') && (forall c :: c in b ==> c == '0' || c == '1')
    ensures Digits(a) <= Digits(b) <==> a <= b
  {
    DigitsSpellAll(a);
    DigitsSpellAll(b);
    if Digits(a) <= Digits(b) {
      forall i | 0 <= i < |a|
        ensures a[i] == b[i]
      {
        assert a[i] in a && b[i] in b;
        assert Digits(a)[i] == Digits(b)[i];
      }
    }
    hide Digits;
  }

  /** What being prefix-free means for the paths. */
  lemma PrefixFreePaths(entries: seq<Entry>)
    requires PrefixFree(entries)
    ensures forall i :: 0 <= i < |entries| ==> |Digits(entries[i].code)| > 0 && EndsWithDigit(entries[i].code)
    ensures forall i, j :: 0 <= i < |entries| && 0 <= j < |entries| && i != j ==>
              !(Digits(entries[i].code) <= Digits(entries[j].code))
  {
    hide Digits;
    forall i | 0 <= i < |entries|
      ensures |Digits(entries[i].code)| > 0 && EndsWithDigit(entries[i].code)
    {
      DigitsSpellAll(entries[i].code);
      assert entries[i].code[|entries[i].code| - 1] in entries[i].code;
    }
    forall i, j | 0 <= i < |entries| && 0 <= j < |entries| && i != j
      ensures !(Digits(entries[i].code) <= Digits(entries[j].code))
    {
      PathsArePrefixes(entries[i].code, entries[j].code);
    }
  }

  lemma CodesAreNotEmpty(entries: seq<Entry>, k: nat)
    requires PrefixFree(entries) && k < |entries|
    ensures PathOf(entries, k) != [] && EndsWithDigit(entries[k].code)
  {
    PrefixFreePaths(entries);
  }

  /** For a prefix-free dictionary the trie maps exactly its codes. */
  lemma TrieIsDictionary(entries: seq<Entry>, p: Path)
    requires PrefixFree(entries)
    ensures p in Build(entries) <==> p == [] || exists k: nat :: k < |entries| && p <= PathOf(entries, k)
    ensures forall k: nat :: k < |entries| && p == PathOf(entries, k) ==> p in Build(entries) && Build(entries)[p] == Some(entries[k].value)
    ensures p in Build(entries) && Build(entries)[p].Some? ==> exists k: nat :: k < |entries| && p == PathOf(entries, k)
  {
    TrieContains(entries, p);
    PrefixFreePaths(entries);
    var i := FirstThrough(entries, p);
    if i < |entries| {
      assert p <= PathOf(entries, i);
    }
    forall k: nat | k < |entries| && p == PathOf(entries, k)
      ensures p in Build(entries) && Build(entries)[p] == Some(entries[k].value)
    {
      CodesAreNotEmpty(entries, k);
      assert Digits(entries[k].code) <= Digits(entries[i].code);
    }
    if p in Build(entries) && Build(entries)[p].Some? {
      assert p == PathOf(entries, i);
    }
  }

  /** Of a prefix-free dictionary every value is stored. */
  lemma {:induction false} AllAreStored(entries: seq<Entry>)
    requires PrefixFree(entries)
    ensures Stored(entries) == |entries|
    decreases |entries|
  {
    hide Build, Digits, PrefixFree;
    if entries != [] {
      var n := |entries| - 1;
      InitIsFree(entries);
      AllAreStored(entries[..n]);
      LastIsStored(entries);
    }
  }

  lemma InitIsFree(entries: seq<Entry>)
    requires PrefixFree(entries) && entries != []
    ensures PrefixFree(entries[..|entries| - 1])
  {
  }

  lemma LastIsStored(entries: seq<Entry>)
    requires PrefixFree(entries) && entries != []
    ensures Stores(Build(entries[..|entries| - 1]), entries[|entries| - 1].code)
  {
    var n := |entries| - 1;
    var init, path := entries[..n], Digits(entries[n].code);
    PrefixFreePaths(entries);
    InitIsFree(entries);
    hide Build, Digits, PrefixFree;
    TrieIsDictionary(init, path);
    forall k: nat | k < |init|
      ensures !(path <= PathOf(init, k))
    {
      assert init[k] == entries[k] && !(Digits(entries[n].code) <= Digits(entries[k].code));
    }
  }

  // ------------------------------------------------------------------- decoding inverts encoding

  /** The code and the text of a list of entries, given by their numbers. */
  function Codes(entries: seq<Entry>, ks: seq<nat>): Path {
    if ks == [] then [] else PathOf(entries, ks[0]) + Codes(entries, ks[1..])
  }

  function Values(entries: seq<Entry>, ks: seq<nat>): Text
    requires AreEntries(entries, ks)
  {
    if ks == [] then [] else entries[ks[0]].value + Values(entries, ks[1..])
  }

  predicate AreEntries(entries: seq<Entry>, ks: seq<nat>) {
    forall i :: 0 <= i < |ks| ==> ks[i] < |entries|
  }

  /** Bits that a code could go on from: none, or some of the first of a code but not all. */
  predicate Unfinished(entries: seq<Entry>, rest: Path) {
    rest == [] || exists k: nat :: k < |entries| && rest <= PathOf(entries, k) && rest != PathOf(entries, k)
  }

  /** `ks` is a way to read the bits, up to an unfinished rest. */
  predicate Parses(entries: seq<Entry>, bits: Path, ks: seq<nat>, rest: Path) {
    AreEntries(entries, ks) && bits == Codes(entries, ks) + rest && Unfinished(entries, rest)
  }

  /** A node without a value is an unfinished code, and the other way round. */
  lemma UnfinishedIsInside(entries: seq<Entry>, rest: Path)
    requires PrefixFree(entries)
    ensures Unfinished(entries, rest) <==> rest in Build(entries) && Build(entries)[rest] == None
  {
    PrefixFreePaths(entries);
    hide PrefixFree, Digits;
    TrieIsDictionary(entries, rest);
    hide Build;
    if Unfinished(entries, rest) && rest != [] {
      var k: nat :| k < |entries| && rest <= PathOf(entries, k) && rest != PathOf(entries, k);
      forall j: nat | j < |entries| ensures rest != PathOf(entries, j) {
        assert j != k ==> !(Digits(entries[j].code) <= Digits(entries[k].code));
      }
    } else if rest == [] {
      forall j: nat | j < |entries| ensures rest != PathOf(entries, j) {
        CodesAreNotEmpty(entries, j);
      }
    }
  }

  /** Walking the rest of a code from a node on its path. */
  lemma {:induction false} WalkCode(entries: seq<Entry>, k: nat, j: nat, tail: Path)
    requires PrefixFree(entries) && k < |entries| && j < |PathOf(entries, k)|
    ensures Walk(Build(entries), PathOf(entries, k)[j..] + tail, PathOf(entries, k)[..j])
         == Put(entries[k].value, Walk(Build(entries), tail, []))
    decreases |PathOf(entries, k)| - j
  {
    hide Build, Walk, PrefixFree;
    var t, path := Build(entries), PathOf(entries, k);
    var next := path[..j + 1];
    assert Then(path[..j], path[j]) == next;
    assert path[j..] + tail == [path[j]] + (path[j + 1..] + tail);
    WalkStep(t, [], path[j], path[j + 1..] + tail, path[..j]);
    PutNothing(Walk(t, path[j..] + tail, path[..j]));
    TrieIsDictionary(entries, next);
    assert next <= path;
    if j + 1 < |path| {
      WalkCode(entries, k, j + 1, tail);
      PutNothing(Walk(t, path[j + 1..] + tail, next));
      UnfinishedIsInside(entries, next);
    } else {
      assert next == path && path[j + 1..] + tail == tail;
      assert [] + entries[k].value == entries[k].value;
    }
  }

  /** Walking unfinished bits from a node on their path. */
  lemma {:induction false} WalkUnfinished(entries: seq<Entry>, rest: Path, j: nat)
    requires PrefixFree(entries) && Unfinished(entries, rest) && j <= |rest|
    ensures Walk(Build(entries), rest[j..], rest[..j]) == Ok([], rest)
    decreases |rest| - j
  {
    hide Build, PrefixFree;
    if j < |rest| {
      var next := rest[..j + 1];
      assert Then(rest[..j], rest[j]) == next && rest[j..][1..] == rest[j + 1..];
      WalkUnfinished(entries, rest, j + 1);
      var k: nat :| k < |entries| && rest <= PathOf(entries, k) && rest != PathOf(entries, k);
      assert next <= PathOf(entries, k) && |next| < |PathOf(entries, k)|;
      UnfinishedIsInside(entries, next);
    } else {
      assert rest[..j] == rest && rest[j..] == [];
    }
  }

  /** The decoder inverts encoding: on the codes of any entries, and an unfinished rest, it gives
      the values of these entries and stops in the rest. */
  lemma {:induction false} DecodeInvertsEncode(entries: seq<Entry>, ks: seq<nat>, rest: Path)
    requires PrefixFree(entries) && AreEntries(entries, ks) && Unfinished(entries, rest)
    ensures Walk(Build(entries), Codes(entries, ks) + rest, []) == Ok(Values(entries, ks), rest)
    decreases |ks|
  {
    hide Build, Walk, PrefixFree;
    if ks == [] {
      WalkUnfinished(entries, rest, 0);
      assert rest[0..] == rest && rest[..0] == [] && [] + rest == rest;
    } else {
      var path := PathOf(entries, ks[0]);
      var tail := Codes(entries, ks[1..]) + rest;
      DecodeInvertsEncode(entries, ks[1..], rest);
      CodesAreNotEmpty(entries, ks[0]);
      WalkCode(entries, ks[0], 0, tail);
      assert path[0..] == path && path[..0] == [] && Codes(entries, ks) + rest == path + tail;
    }
  }

  /** A walk that stays in the trie reads codes, and gives their values. */
  lemma {:induction false} WalkReads(entries: seq<Entry>, bits: Path, path: Path) returns (ks: seq<nat>, rest: Path)
    requires PrefixFree(entries) && Unfinished(entries, path) && Walk(Build(entries), bits, path).Ok?
    ensures Parses(entries, path + bits, ks, rest)
    ensures Walk(Build(entries), bits, path) == Ok(Values(entries, ks), rest)
    decreases |bits|
  {
    hide Build, PrefixFree, Unfinished;
    var t := Build(entries);
    if bits == [] {
      ks, rest := [], path;
      assert path + bits == [] + path;
    } else {
      var next := Then(path, bits[0]);
      TrieIsDictionary(entries, next);
      UnfinishedIsInside(entries, next);
      UnfinishedIsInside(entries, []);
      RootIsUnfinished(entries);
      assert path + bits == next + bits[1..];
      if t[next].Some? {
        var k: nat :| k < |entries| && next == PathOf(entries, k);
        ks, rest := WalkReads(entries, bits[1..], []);
        var more := ks;
        ks := [k] + more;
        assert ks[1..] == more && [] + bits[1..] == bits[1..];
        assert Codes(entries, ks) + rest == next + (Codes(entries, more) + rest);
      } else {
        ks, rest := WalkReads(entries, bits[1..], next);
      }
    }
  }

  lemma RootIsUnfinished(entries: seq<Entry>)
    ensures Unfinished(entries, [])
  {
  }

  /** There is at most one way to read the bits. */
  lemma {:induction false} ParseIsUnique(entries: seq<Entry>, bits: Path, ks: seq<nat>, rest: Path, ls: seq<nat>, rest': Path)
    requires PrefixFree(entries) && Parses(entries, bits, ks, rest) && Parses(entries, bits, ls, rest')
    ensures ks == ls && rest == rest'
    decreases |ks|
  {
    hide PrefixFree, PathOf, Unfinished;
    if ks == [] && ls == [] {
      assert Codes(entries, []) + rest == rest && Codes(entries, []) + rest' == rest';
    } else if ks == [] {
      assert Codes(entries, []) + rest == rest;
      ParseRest(entries, bits, ls, rest');
      CodeIsFinished(entries, ls[0], bits);
    } else if ls == [] {
      assert Codes(entries, []) + rest' == rest';
      ParseRest(entries, bits, ks, rest);
      CodeIsFinished(entries, ks[0], bits);
    } else {
      FirstCodesAgree(entries, bits, ks, rest, ls, rest');
      ParseRest(entries, bits, ks, rest);
      ParseRest(entries, bits, ls, rest');
      ParseIsUnique(entries, bits[|PathOf(entries, ks[0])|..], ks[1..], rest, ls[1..], rest');
      assert ks == [ks[0]] + ks[1..] && ls == [ls[0]] + ls[1..];
    }
  }

  lemma ParseRest(entries: seq<Entry>, bits: Path, ks: seq<nat>, rest: Path)
    requires Parses(entries, bits, ks, rest) && ks != []
    ensures PathOf(entries, ks[0]) <= bits
    ensures Parses(entries, bits[|PathOf(entries, ks[0])|..], ks[1..], rest)
  {
    hide Unfinished, PathOf;
    var path := PathOf(entries, ks[0]);
    assert bits == path + (Codes(entries, ks[1..]) + rest);
  }

  /** Bits that begin with a code are not unfinished. */
  lemma CodeIsFinished(entries: seq<Entry>, m: nat, bits: Path)
    requires PrefixFree(entries) && m < |entries| && PathOf(entries, m) <= bits
    ensures !Unfinished(entries, bits)
  {
    PrefixFreePaths(entries);
    hide PrefixFree, Digits;
    CodesAreNotEmpty(entries, m);
    forall k: nat | k < |entries| && bits <= PathOf(entries, k) ensures bits == PathOf(entries, k) {
      assert Digits(entries[m].code) <= Digits(entries[k].code);
    }
  }

  lemma FirstCodesAgree(entries: seq<Entry>, bits: Path, ks: seq<nat>, rest: Path, ls: seq<nat>, rest': Path)
    requires PrefixFree(entries) && Parses(entries, bits, ks, rest) && Parses(entries, bits, ls, rest')
    requires ks != [] && ls != []
    ensures ks[0] == ls[0]
  {
    PrefixFreePaths(entries);
    hide PrefixFree, Digits;
    ParseRest(entries, bits, ks, rest);
    ParseRest(entries, bits, ls, rest');
    Nested(PathOf(entries, ks[0]), PathOf(entries, ls[0]), bits);
  }

  /** The decoder, on any bits: it succeeds if and only if the bits can be read as codes with an
      unfinished rest, there is then one way to do so, and its values are the text. */
  lemma DecodesExactlyTheParse(entries: seq<Entry>, bits: Path)
    requires PrefixFree(entries)
    ensures Walk(Build(entries), bits, []).Ok? <==> exists ks, rest :: Parses(entries, bits, ks, rest)
    ensures forall ks, rest :: Parses(entries, bits, ks, rest) ==>
      Walk(Build(entries), bits, []) == Ok(Values(entries, ks), rest)
  {
    hide Build, Walk, PrefixFree;
    RootIsUnfinished(entries);
    if Walk(Build(entries), bits, []).Ok? {
      var ks, rest := WalkReads(entries, bits, []);
      assert [] + bits == bits;
    }
    forall ks, rest | Parses(entries, bits, ks, rest)
      ensures Walk(Build(entries), bits, []) == Ok(Values(entries, ks), rest)
    {
      DecodeInvertsEncode(entries, ks, rest);
    }
  }

  /** The smallest dictionary of two codes. */
  function TwoCodes(): seq<Entry> { [Entry("0", [101]), Entry("1", [116])] }

  lemma TwoCodesAreFree()
    ensures PrefixFree(TwoCodes()) && PathOf(TwoCodes(), 0) == [false] && PathOf(TwoCodes(), 1) == [true]
  {
    DigitsSpellAll("0");
    DigitsSpellAll("1");
    assert "0"[0] == '0' && "1"[0] == '1';
    hide Digits;
  }

  /** A byte in it: the last six of its bits are an e and five t's. */
  lemma SixBits()
    ensures PrefixFree(TwoCodes())
    ensures Walk(Build(TwoCodes()), DataBits([0x1F]), []) == Ok([101, 116, 116, 116, 116, 116], [])
  {
    hide PrefixFree, Digits, Build, Walk, DataBits;
    TwoCodesAreFree();
    RootIsUnfinished(TwoCodes());
    OnlyOnes(TwoCodes(), 5);
    CodesCons(TwoCodes(), 0, OnesOf(5));
    DecodeInvertsEncode(TwoCodes(), [0] + OnesOf(5), []);
    SixBitsOf();
    assert [false] + seq(5, i => true) + [] == [false, true, true, true, true, true];
    assert [101] + seq(5, i => 116) == [101, 116, 116, 116, 116, 116];
  }

  function OnesOf(n: nat): seq<nat> { seq(n, i => 1) }

  lemma CodesCons(entries: seq<Entry>, k: nat, ks: seq<nat>)
    requires k < |entries| && AreEntries(entries, ks)
    ensures Codes(entries, [k] + ks) == PathOf(entries, k) + Codes(entries, ks)
    ensures AreEntries(entries, [k] + ks) && Values(entries, [k] + ks) == entries[k].value + Values(entries, ks)
  {
    assert ([k] + ks)[1..] == ks;
  }

  lemma {:induction false} OnlyOnes(entries: seq<Entry>, n: nat)
    requires |entries| > 1 && PathOf(entries, 1) == [true]
    ensures Codes(entries, OnesOf(n)) == seq(n, i => true)
    ensures AreEntries(entries, OnesOf(n))
    ensures |entries[1].value| == 1 ==> Values(entries, OnesOf(n)) == seq(n, i => entries[1].value[0])
  {
    if n > 0 {
      OnlyOnes(entries, n - 1);
      assert OnesOf(n) == [1] + OnesOf(n - 1);
      CodesCons(entries, 1, OnesOf(n - 1));
    }
  }

  lemma SixBitsOf()
    ensures DataBits([0x1F]) == [false, true, true, true, true, true]
  {
    assert Power(0) == 1 && Power(1) == 2 && Power(2) == 4 && Power(3) == 8 && Power(4) == 16 && Power(5) == 32;
    DataBitsAre([0x1F], 0, 2);
    DataBitsAre([0x1F], 0, 3);
    DataBitsAre([0x1F], 0, 4);
    DataBitsAre([0x1F], 0, 5);
    DataBitsAre([0x1F], 0, 6);
    DataBitsAre([0x1F], 0, 7);
    hide DataBits, Power;
  }
}
