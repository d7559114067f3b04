/**
 Copying from user space page by page: __arch_copy_from_user, and the bounds test and zero fill
 around it. A page is present when the translation of its addresses does not fault.
 */
module UserCopy {
  import opened Basics

  const PAGE_SIZE: nat := 4096
  const VA_LIMIT: nat := 0x1_0000_0000_0000
  const BIT_55: nat := 0x80_0000_0000_0000
  const WORD64: nat := 0x1_0000_0000_0000_0000

  /** The present pages and what they hold. */
  type Pages = map<nat, seq<byte>>

  ghost predicate Whole(pages: Pages) {
    forall p | p in pages :: |pages[p]| == PAGE_SIZE
  }

  predicate Present(pages: Pages, a: nat) {
    a / PAGE_SIZE in pages
  }

  function UserByte(pages: Pages, a: nat): byte
    requires Whole(pages) && Present(pages, a)
  {
    pages[a / PAGE_SIZE][a % PAGE_SIZE]
  }

  /** The first k bytes from a on are readable, and to holds them. */
  ghost predicate Copied(to: seq<byte>, pages: Pages, a: nat, k: nat)
    requires Whole(pages) && k <= |to|
  {
    forall i | 0 <= i < k :: CopiedAt(to[i], pages, a + i)
  }

  ghost predicate CopiedAt(x: byte, pages: Pages, a: nat)
    requires Whole(pages)
  {
    Present(pages, a) && x == UserByte(pages, a)
  }

  /** The pages that [a, a + n) meets. */
  ghost predicate Meets(p: nat, a: nat, n: nat) {
    exists i: nat :: i < n && OnPage(p, a, i)
  }

  predicate OnPage(p: nat, a: nat, i: nat) {
    (a + i) / PAGE_SIZE == p
  }

  /** Bytes of one page lie where the page is. */
  lemma {:induction false} InPage(a: nat, len: nat, i: nat)
    requires a % PAGE_SIZE + len <= PAGE_SIZE && i < len
    ensures (a + i) / PAGE_SIZE == a / PAGE_SIZE && (a + i) % PAGE_SIZE == a % PAGE_SIZE + i
  {
  }

  /** The first k of n bytes at a have been copied into the buffer was, and the rest is as it was. */
  ghost predicate Partly(to: seq<byte>, was: seq<byte>, pages: Pages, a: nat, k: nat)
    requires Whole(pages)
  {
    k <= |to| == |was| && Copied(to, pages, a, k) && to[k..] == was[k..]
  }

  lemma {:induction false} PartlyMore(was: seq<byte>, mid: seq<byte>, now: seq<byte>, pages: Pages, a: nat, k: nat,
                                      len: nat)
    requires Whole(pages) && Partly(mid, was, pages, a, k) && k + len <= |mid| == |now|
    requires (a + k) % PAGE_SIZE + len <= PAGE_SIZE
    requires Present(pages, a + k)
    requires now == mid[..k] + pages[(a + k) / PAGE_SIZE][(a + k) % PAGE_SIZE..(a + k) % PAGE_SIZE + len]
             + mid[k + len..]
    ensures Partly(now, was, pages, a, k + len)
  {
    forall i | 0 <= i < k + len ensures CopiedAt(now[i], pages, a + i) {
      if i < k {
        assert now[i] == mid[i] && CopiedAt(mid[i], pages, a + i);
      } else {
        InPage(a + k, len, i - k);
        assert a + i == a + k + (i - k);
      }
    }
    assert mid[k + len..] == mid[k..][len..] && was[k + len..] == was[k..][len..];
  }

  /** One translation and one memcpy inside a page; false when the translation faults. */
  method CopyPart(to: array<byte>, k: nat, ua: nat, len: nat, pages: Pages, ghost was: seq<byte>, ghost a: nat)
    returns (ok: bool)
    requires Whole(pages) && k + len <= to.Length && ua == a + k && ua % PAGE_SIZE + len <= PAGE_SIZE
    requires Partly(to[..], was, pages, a, k)
    modifies to
    ensures ok <==> Present(pages, ua)
    ensures Partly(to[..], was, pages, a, if ok then k + len else k)
  {
    hide Partly;
    var p, off := ua / PAGE_SIZE, ua % PAGE_SIZE;
    if p !in pages { return false; }
    ghost var mid := to[..];
    var frame := pages[p];
    forall i | 0 <= i < len { to[k + i] := frame[off + i]; }
    assert to[..] == mid[..k] + frame[off..off + len] + mid[k + len..];
    PartlyMore(was, mid, to[..], pages, a, k, len);
    return true;
  }

  /** The touched pages are the ones that the first k bytes at a lie on. */
  ghost predicate Touched(touched: set<nat>, a: nat, k: nat) {
    forall p: nat :: p in touched <==> Meets(p, a, k)
  }

  /** One byte more touches its page. */
  lemma {:induction false} TouchMore(touched: set<nat>, a: nat, k: nat)
    requires Touched(touched, a, k)
    ensures Touched(touched + {(a + k) / PAGE_SIZE}, a, k + 1)
  {
    var more := touched + {(a + k) / PAGE_SIZE};
    forall p: nat ensures p in more <==> Meets(p, a, k + 1) {
      if Meets(p, a, k) {
        var i: nat :| i < k && OnPage(p, a, i);
        assert i < k + 1 && OnPage(p, a, i);
      } else if Meets(p, a, k + 1) {
        var i: nat :| i < k + 1 && OnPage(p, a, i);
        assert !(i < k);
      }
      assert OnPage((a + k) / PAGE_SIZE, a, k);
    }
  }

  /** The other bytes of the same page touch nothing new. */
  lemma {:induction false} TouchSame(touched: set<nat>, a: nat, k: nat, len: nat)
    requires 0 < len && (a + k) % PAGE_SIZE + len <= PAGE_SIZE && Touched(touched, a, k + 1)
    ensures Touched(touched, a, k + len)
  {
    forall p: nat ensures p in touched <==> Meets(p, a, k + len) {
      if Meets(p, a, k + 1) {
        var i: nat :| i < k + 1 && OnPage(p, a, i);
        assert i < k + len;
      }
      if Meets(p, a, k + len) {
        var i: nat :| i < k + len && OnPage(p, a, i);
        if k < i {
          InPage(a + k, len, i - k);
          assert a + k + (i - k) == a + i;
          assert OnPage(p, a, k);
        } else {
          assert i < k + 1;
        }
      }
    }
  }

  /** How far the copy looked when r of n bytes are left. */
  function Looked(n: nat, r: nat): nat
    requires r <= n
  {
    if r == 0 then n else n - r + 1
  }

  lemma {:induction false} NextPage(a: nat)
    requires a % PAGE_SIZE == 0
    ensures (a + PAGE_SIZE) % PAGE_SIZE == 0
  {
  }

  /** __arch_copy_from_user: the number of bytes not copied. */
  method ArchCopyFromUser(to: array<byte>, from: nat, n: nat, pages: Pages) returns (r: nat, ghost touched: set<nat>)
    requires Whole(pages) && n <= to.Length && from + n <= WORD64
    modifies to
    ensures r <= n && Partly(to[..], old(to[..]), pages, from, n - r)
    ensures r > 0 ==> !Present(pages, from + (n - r))
    ensures n > 0 ==> Touched(touched, from, Looked(n, r))
    ensures n == 0 ==> touched == if from % PAGE_SIZE == 0 then {} else {from / PAGE_SIZE}
  {
    ghost var was := to[..];
    assert Partly(to[..], was, pages, from, 0) && Touched({}, from, 0);
    hide Whole, Partly, Present, Touched;
    touched := {};
    var k: nat := 0;
    if from % PAGE_SIZE != 0 {
      var len := if n < PAGE_SIZE - from % PAGE_SIZE then n else PAGE_SIZE - from % PAGE_SIZE;
      TouchMore(touched, from, 0);
      touched := touched + {(from + 0) / PAGE_SIZE};
      var ok := CopyPart(to, 0, from, len, pages, was, from);
      if !ok { return n, touched; }
      if n == 0 { return 0, touched; }
      TouchSame(touched, from, 0, len);
      k := len;
    }
    r, touched := CopyPages(to, from, n, k, pages, was, touched);
  }

  /** The body and the tail of __arch_copy_from_user: whole pages, then what is left. */
  method CopyPages(to: array<byte>, from: nat, n: nat, first: nat, pages: Pages, ghost was: seq<byte>,
                   ghost seen: set<nat>)
    returns (r: nat, ghost touched: set<nat>)
    requires Whole(pages) && first <= n <= to.Length && (first < n ==> (from + first) % PAGE_SIZE == 0)
    requires Partly(to[..], was, pages, from, first) && Touched(seen, from, first)
    modifies to
    ensures r <= n && Partly(to[..], was, pages, from, n - r)
    ensures r > 0 ==> !Present(pages, from + (n - r))
    ensures Touched(touched, from, Looked(n, r)) && (n == first ==> touched == seen)
  {
    hide Whole, Partly, Present, Touched;
    var left: nat, k: nat := n - first, first;
    touched := seen;
    while left >= PAGE_SIZE
      invariant k + left == n && (left > 0 ==> (from + k) % PAGE_SIZE == 0)
      invariant Partly(to[..], was, pages, from, k) && Touched(touched, from, k)
      invariant n == first ==> touched == seen
    {
      TouchMore(touched, from, k);
      touched := touched + {(from + k) / PAGE_SIZE};
      var ok := CopyPart(to, k, from + k, PAGE_SIZE, pages, was, from);
      if !ok { return left, touched; }
      TouchSame(touched, from, k, PAGE_SIZE);
      NextPage(from + k);
      left, k := left - PAGE_SIZE, k + PAGE_SIZE;
    }
    if left > 0 {
      TouchMore(touched, from, k);
      touched := touched + {(from + k) / PAGE_SIZE};
      var ok := CopyPart(to, k, from + k, left, pages, was, from);
      if !ok { return left, touched; }
      TouchSame(touched, from, k, left);
    }
    return 0, touched;
  }

  /** __access_ok, without overflow. */
  predicate AccessOk(addr: nat, size: nat) {
    size <= VA_LIMIT && addr <= VA_LIMIT - size
  }

  /** __uaccess_mask_ptr. */
  function MaskPtr(addr: nat): nat {
    if addr / BIT_55 % 2 == 1 then addr - BIT_55 else addr
  }

  /** __uaccess_mask_ptr clears bit 55 and nothing else. */
  lemma {:induction false} MaskClears(addr: nat)
    requires addr < WORD64
    ensures MaskPtr(addr) / BIT_55 % 2 == 0 && MaskPtr(addr) % BIT_55 == addr % BIT_55
    ensures MaskPtr(addr) / (2 * BIT_55) == addr / (2 * BIT_55)
  {
  }

  /** A range that passes the test ends at or below 2^48, and there the mask changes nothing. */
  lemma {:induction false} MaskIsIdentity(addr: nat, size: nat)
    requires AccessOk(addr, size)
    ensures MaskPtr(addr) == addr && addr + size <= 0x1_0000_0000_0000
  {
  }

  /** Pages of a range below 2^48 lie below 2^48. */
  lemma {:induction false} UserPages(touched: set<nat>, a: nat, n: nat, k: nat)
    requires a + n <= 0x1_0000_0000_0000 && k <= n
    requires n > 0 ==> Touched(touched, a, k)
    requires n == 0 ==> touched == if a % PAGE_SIZE == 0 then {} else {a / PAGE_SIZE}
    ensures forall p | p in touched :: p * 4096 < 0x1_0000_0000_0000
  {
    forall p | p in touched ensures p * 4096 < 0x1_0000_0000_0000 {
      if n > 0 {
        var i: nat :| i < k && OnPage(p, a, i);
        assert p == (a + i) / PAGE_SIZE;
      }
    }
  }

  /**
   _inline_copy_from_user.  A range that leaves the user half, [0, 2^48), is refused before any
   page is looked at; otherwise the copy ends at the first byte that is not present.  What was not
   copied is zero.
   */
  method CopyFromUser(to: array<byte>, from: nat, n: nat, pages: Pages) returns (r: nat, ghost touched: set<nat>)
    requires Whole(pages) && n <= to.Length && from < WORD64
    modifies to
    ensures from + n > 0x1_0000_0000_0000 ==> r == n && touched == {}
    ensures r <= n && Copied(to[..], pages, from, n - r) && to[n..] == old(to[n..])
    ensures forall i | n - r <= i < n :: to[i] == 0
    ensures from + n <= 0x1_0000_0000_0000 && r > 0 ==> !Present(pages, from + (n - r))
    ensures from + n <= 0x1_0000_0000_0000 && n > 0 ==> Touched(touched, from, Looked(n, r))
    ensures forall p | p in touched :: p * 4096 < 0x1_0000_0000_0000
  {
    hide Touched;
    r, touched := n, {};
    if AccessOk(from, n) {
      MaskIsIdentity(from, n);
      r, touched := ArchCopyFromUser(to, MaskPtr(from), n, pages);
      UserPages(touched, from, n, Looked(n, r));
      assert to[n..] == to[..][n - r..][r..] && old(to[n..]) == old(to[..])[n - r..][r..];
      if r == 0 { return; }
    }
    ghost var was := to[..];
    forall i | n - r <= i < n { to[i] := 0; }
    assert forall i | 0 <= i < n - r :: to[..][i] == was[i];
  }
}
