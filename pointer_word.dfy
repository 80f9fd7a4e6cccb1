/**
 * The word layout of rbt/rbt_natarajan_ext.h.  A pointer node is one 64-bit
 * word holding a 4-byte-aligned data-node address in its upper bits and a
 * two-bit flag in its two least significant bits.  A data node carries the
 * colour, key and value and two links to pointer nodes.
 */
module PointerWord {
  import opened Wrappers
  import SearchOrder

  /** word_t: uintptr_t, 64 bits; `+` wraps around as it does in C. */
  type Word = bv64

  /** ADDR_IS_VALID: shifting the two low bits out and back in changes nothing. */
  function AddrIsValid(addr: Word): (ok: bool)
    ensures ok <==> addr & 3 == 0
  {
    addr >> 2 << 2 == addr
  }

  /** WORD_COMBINE_ADDR_FLAG: the flag is added to the address. */
  function Combine(addr: Word, flag: Word): (w: Word)
    ensures AddrIsValid(addr) && flag < 4 ==> GetAddr(w) == addr && GetFlag(w) == flag
  {
    addr + flag
  }

  /** WORD_GET_ADDR: the aligned address at or just below the word. */
  function GetAddr(w: Word): (a: Word)
    ensures AddrIsValid(a)
    ensures a <= w && w - a < 4
  {
    w >> 2 << 2
  }

  /** WORD_GET_FLAG: the two low bits; address and flag add up to the word. */
  function GetFlag(w: Word): (f: Word)
    ensures f < 4
    ensures GetAddr(w) + f == w
  {
    w & 3
  }

  /** Every word splits into an aligned address and a flag and is rebuilt from them. */
  lemma SplitCombine(w: Word)
    ensures Combine(GetAddr(w), GetFlag(w)) == w
  {
  }

  /** pnode_flag_t: FREE = 0, OWNED = 1. */
  datatype PnodeFlag = Free | Owned

  function FlagWord(f: PnodeFlag): (w: Word)
    ensures w < 4
    ensures f.Free? <==> w == 0
  {
    if f.Free? then 0 else 1
  }

  /** A pointer node: the cell that one data-node link points to. */
  class PointerNode {
    var word: Word

    constructor (w: Word)
      ensures word == w
    {
      word := w;
    }

    /** PNODE_TO_FLAG, read as the enumeration; any other flag value is None. */
    function Flag(): (f: Option<PnodeFlag>)
      reads this
      ensures f.Some? <==> GetFlag(word) < 2
      ensures f.Some? ==> FlagWord(f.value) == GetFlag(word)
    {
      if GetFlag(word) == 0 then Some(Free)
      else if GetFlag(word) == 1 then Some(Owned)
      else None
    }

    /** PNODE_SET_FLAG: the flag bits are replaced, the address kept. */
    method SetFlag(flag: Word)
      requires flag < 4
      modifies this
      ensures word == Combine(GetAddr(old(word)), flag)
      ensures GetAddr(word) == GetAddr(old(word)) && GetFlag(word) == flag
    {
      word := Combine(GetAddr(word), flag);
    }
  }

  /**
   * pnode_new: a fresh pointer node holding the address and the flag.  An
   * address that is not 4-byte aligned makes the source exit, which is None.
   */
  method NewPointerNode(addr: Word, flag: PnodeFlag) returns (p: Option<PointerNode>)
    ensures p.None? <==> !AddrIsValid(addr)
    ensures p.Some? ==> fresh(p.value) && p.value.word == Combine(addr, FlagWord(flag))
    ensures p.Some? ==> GetAddr(p.value.word) == addr && p.value.Flag() == Some(flag)
  {
    if !AddrIsValid(addr) {
      return None;
    }
    var n := new PointerNode(Combine(addr, FlagWord(flag)));
    return Some(n);
  }

  /** A data node; null links are null references, null record pointers 0. */
  class DataNode {
    var isRed: int
    var key: int
    var value: Word
    var left: PointerNode?
    var right: PointerNode?
    var valData: Word
    var opData: Word
    var next: Word

    /** dnode_new: a zeroed node with the given colour, key and value. */
    constructor (key: int, value: Word, isRed: int)
      ensures this.isRed == isRed && this.key == key && this.value == value
      ensures left == null && right == null
      ensures valData == 0 && opData == 0 && next == 0
    {
      this.isRed := isRed;
      this.key := key;
      this.value := value;
      left := null;
      right := null;
      valData := 0;
      opData := 0;
      next := 0;
    }

    /** NEXT_CHILD_PNODE: the link an external search for `k` follows. */
    function NextChild(k: int): (p: PointerNode?)
      reads this
      ensures p == if SearchOrder.LeftOf(k, key, SearchOrder.External) then left else right
    {
      if k <= key then left else right
    }

    /** OTHER_CHILD_PNODE: with NEXT_CHILD_PNODE it names both links of the node. */
    function OtherChild(k: int): (p: PointerNode?)
      reads this
      ensures {p, NextChild(k)} == {left, right}
      ensures k <= key ==> p == right
    {
      if k > key then left else right
    }
  }
}
