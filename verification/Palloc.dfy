/** The page allocator's two pools: how memory is divided between them, and that pages go back to the
    pool they came from (Project2/src/threads/palloc.c). */
module Palloc {
  import opened Bitmap

  const PGSIZE: int := 4096

  /** Pages that bitmap_buf_size (cnt) bytes take: the struct bitmap and one bit a page, in words. */
  function BitmapPages(cnt: nat): nat { (8 + (cnt + 31) / 32 * 4 + PGSIZE - 1) / PGSIZE }

  /** A pool of pages: its first page number and, for each page, whether it is in use. */
  class Pool {
    const base: nat
    var used: seq<bool>

    /** init_pool on the pages from `start` on: the bitmap takes the first of them. */
    constructor (start: nat, cnt: nat)
      requires BitmapPages(cnt) <= cnt
      ensures base == start + BitmapPages(cnt) && base + |used| == start + cnt && forall i | 0 <= i < |used| :: !used[i]
    {
      base := start + BitmapPages(cnt);
      used := seq(cnt - BitmapPages(cnt), _ => false);
    }

    /** page_from_pool. */
    predicate Has(page: int)
      reads this
    {
      base <= page < base + |used|
    }

    /** Page number `page` is in use. */
    predicate InUse(page: int)
      reads this
    {
      Has(page) && used[page - base]
    }
  }

  class Allocator {
    const kernel: Pool
    const user: Pool

    /** The pools are two, and the user pool lies after the kernel pool. */
    ghost predicate Valid()
      reads kernel, user
    {
      kernel != user && kernel.base + |kernel.used| <= user.base
    }

    /** A page is in use in one of the pools. */
    ghost predicate InUse(page: int)
      reads kernel, user
    {
      kernel.InUse(page) || user.InUse(page)
    }

    /** palloc_init: free memory runs from 1 MB to the end of RAM, half of it, or up to the limit, for
        the user.  The precondition is that init_pool does not panic. */
    constructor (ramPages: nat, userPageLimit: nat)
      requires 256 <= ramPages
      requires var free := ramPages - 256;
        var userPages := if free / 2 > userPageLimit then userPageLimit else free / 2;
        BitmapPages(free - userPages) <= free - userPages && BitmapPages(userPages) <= userPages
      ensures Valid() && forall p :: !InUse(p)
      ensures forall p :: kernel.Has(p) || user.Has(p) ==> 256 <= p < ramPages
    {
      var free_pages := ramPages - 256;
      var user_pages := free_pages / 2;
      if user_pages > userPageLimit {
        user_pages := userPageLimit;
      }
      var kernel_pages := free_pages - user_pages;
      kernel := new Pool(256, kernel_pages);
      user := new Pool(256 + kernel_pages, user_pages);
    }

    /** palloc_get_multiple: pages of the pool asked for that nobody had, or nothing if there is no
        such run. */
    method GetMultiple(forUser: bool, cnt: nat) returns (page: Option<nat>)
      requires Valid()
      modifies kernel`used, user`used
      ensures Valid() && |kernel.used| == old(|kernel.used|) && |user.used| == old(|user.used|)
      ensures page.Some? ==> cnt > 0 && forall p | page.value <= p < page.value + cnt ::
                (if forUser then user.Has(p) else kernel.Has(p)) && !old(InUse(p))
      ensures forall p :: InUse(p) <==> old(InUse(p)) || (page.Some? && page.value <= p < page.value + cnt)
      ensures page.None? ==> cnt == 0 || FirstClear(old(if forUser then user.used else kernel.used), cnt).None?
    {
      page := None;
      if cnt == 0 {
        return;
      }
      var pool := if forUser then user else kernel;
      var idx, flipped := ScanAndFlip(pool.used, cnt);
      pool.used := flipped;
      if idx.Some? {
        page := Some(pool.base + idx.value);
      }
    }

    /** palloc_free_multiple: the pool is found by address.  The precondition is what the source
        asserts: the pages belong to a pool and all of them are in use there. */
    method FreeMultiple(page: nat, cnt: nat)
      requires Valid() && cnt > 0
      requires (forall p | page <= p < page + cnt :: kernel.InUse(p)) || (forall p | page <= p < page + cnt :: user.InUse(p))
      modifies kernel`used, user`used
      ensures Valid() && |kernel.used| == old(|kernel.used|) && |user.used| == old(|user.used|)
      ensures forall p :: kernel.InUse(p) <==> old(kernel.InUse(p)) && !(page <= p < page + cnt)
      ensures forall p :: user.InUse(p) <==> old(user.InUse(p)) && !(page <= p < page + cnt)
    {
      assert kernel.InUse(page) || user.InUse(page);
      var pool := if kernel.Has(page) then kernel else user;
      assert forall p | page <= p < page + cnt :: pool.InUse(p);
      assert pool.InUse(page + cnt - 1);
      pool.used := SetRun(pool.used, page - pool.base, cnt, false);
    }
  }
}
