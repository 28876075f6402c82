/** The btree order of hstores: string first, then number of pairs, then entries. */
module HStoreOrder {
  import opened Bytes
  import opened HStoreFormat

  function Sign(x: int, y: int): int { if x < y then -1 else if x > y then 1 else 0 }

  /** One entry against another: end position, then null above not null. */
  function EntryCmp(a: HEntry, b: HEntry): int {
    if a.endpos != b.endpos then Sign(a.endpos, b.endpos)
    else if a.isnull == b.isnull then 0 else if a.isnull then 1 else -1
  }

  function EntriesCmp(a: seq<HEntry>, b: seq<HEntry>, i: nat): int
    requires |a| == |b| && i <= |a|
    decreases |a| - i
  {
    if i == |a| then 0 else
    var c := EntryCmp(a[i], b[i]);
    if c != 0 then c else EntriesCmp(a, b, i + 1)
  }

  /** The order as a lexicographic one: emptiness, string, number of entries, entries. */
  function Order(g: HStore, h: HStore): int {
    var e := Sign(if |g.ents| > 0 then 1 else 0, if |h.ents| > 0 then 1 else 0);
    if e != 0 || |g.ents| == 0 then e else
    var s := Cmp(g.str, h.str);
    if s != 0 then s else
    if |g.ents| != |h.ents| then Sign(|g.ents|, |h.ents|) else EntriesCmp(g.ents, h.ents, 0)
  }

  /** Up to i the entries are the same in what counts; there g's ends first, or it ends where h's does and
      only h's is null. */
  predicate EntryBelow(g: seq<HEntry>, h: seq<HEntry>, i: nat) {
    && i < |g| == |h| && (forall k | 0 <= k < i :: g[k].endpos == h[k].endpos && g[k].isnull == h[k].isnull)
    && (g[i].endpos < h[i].endpos || (g[i].endpos == h[i].endpos && !g[i].isnull && h[i].isnull))
  }

  /** The order spelled out: an empty value below any other; then the string, a prefix first; then the
      value with fewer pairs; then the first entry that differs, a null above an empty string. */
  ghost predicate Below(g: HStore, h: HStore) {
    |h.ents| > 0 &&
    (|g.ents| == 0 || (exists i: nat :: FirstDiffers(g.str, h.str, i)) ||
     (g.str == h.str && (|g.ents| < |h.ents| || exists i: nat :: EntryBelow(g.ents, h.ents, i))))
  }

  lemma {:induction false} EntriesBelowIff(g: seq<HEntry>, h: seq<HEntry>, i: nat)
    requires |g| == |h| && i <= |g|
    requires forall k | 0 <= k < i :: g[k].endpos == h[k].endpos && g[k].isnull == h[k].isnull
    ensures EntriesCmp(g, h, i) < 0 <==> exists k: nat :: i <= k && EntryBelow(g, h, k)
    decreases |g| - i
  {
    if i < |g| {
      if EntryCmp(g[i], h[i]) == 0 {
        EntriesBelowIff(g, h, i + 1);
      } else if EntryCmp(g[i], h[i]) < 0 {
        assert EntryBelow(g, h, i);
      }
    }
  }

  lemma OrderIff(g: HStore, h: HStore)
    ensures Order(g, h) < 0 <==> Below(g, h)
  {
    hide Cmp;
    CmpIff(g.str, h.str);
    CmpZero(g.str, h.str);
    if |g.ents| == |h.ents| { EntriesBelowIff(g.ents, h.ents, 0); }
    if g.str == h.str {
      forall i: nat ensures !FirstDiffers(g.str, h.str, i) { }
    }
  }

  /** hstore_cmp */
  method HStoreCmp(hs1: HStore, hs2: HStore) returns (res: int)
    requires WellFormed(hs1) && WellFormed(hs2)
    ensures res == Order(hs1, hs2)
  {
    var hcount1, hcount2 := Count(hs1), Count(hs2);
    res := 0;
    if hcount1 == 0 || hcount2 == 0 {
      if hcount1 > 0 {
        res := 1;
      } else if hcount2 > 0 {
        res := -1;
      }
    } else {
      var len1, len2 := hs1.ents[2 * hcount1 - 1].endpos, hs2.ents[2 * hcount2 - 1].endpos;
      var m := if len1 < len2 then len1 else len2;
      res := Cmp(hs1.str[..m], hs2.str[..m]);
      CmpCut(hs1.str, hs2.str);
      if res == 0 {
        if len1 > len2 {
          res := 1;
        } else if len1 < len2 {
          res := -1;
        } else if hcount1 > hcount2 {
          res := 1;
        } else if hcount2 > hcount1 {
          res := -1;
        } else {
          res := CmpEntries(hs1.ents, hs2.ents);
        }
      } else {
        res := if res > 0 then 1 else -1;
      }
    }
  }

  /** The entry loop of hstore_cmp and the decision after it. */
  method CmpEntries(ent1: seq<HEntry>, ent2: seq<HEntry>) returns (res: int)
    requires |ent1| == |ent2|
    ensures res == EntriesCmp(ent1, ent2, 0)
  {
    res := 0;
    var count, i := |ent1|, 0;
    while i < count && !(ent1[i].endpos != ent2[i].endpos || ent1[i].isnull != ent2[i].isnull)
      invariant i <= count && EntriesCmp(ent1, ent2, 0) == EntriesCmp(ent1, ent2, i)
    {
      i := i + 1;
    }
    if i < count {
      if ent1[i].endpos < ent2[i].endpos {
        res := -1;
      } else if ent1[i].endpos > ent2[i].endpos {
        res := 1;
      } else if ent1[i].isnull {
        res := 1;
      } else if ent2[i].isnull {
        res := -1;
      }
    }
  }

  /** memcmp on the shorter length decides, unless the strings agree there. */
  lemma {:induction false} CmpCut(a: bytes, b: bytes)
    ensures var m := if |a| < |b| then |a| else |b|;
            var c := Cmp(a[..m], b[..m]);
            Cmp(a, b) == if c != 0 then c else Sign(|a|, |b|)
    decreases |a|
  {
    if |a| > 0 && |b| > 0 {
      var m := if |a| < |b| then |a| else |b|;
      assert a[..m][1..] == a[1..][..m - 1] && b[..m][1..] == b[1..][..m - 1];
      CmpCut(a[1..], b[1..]);
    }
  }

  // ----- a total order -----

  lemma {:induction false} EntriesZero(a: seq<HEntry>, b: seq<HEntry>, i: nat)
    requires |a| == |b| && i <= |a|
    ensures EntriesCmp(a, b, i) == 0 <==> forall k | i <= k < |a| :: EntryCmp(a[k], b[k]) == 0
    decreases |a| - i
  {
    if i < |a| { EntriesZero(a, b, i + 1); }
  }

  lemma {:induction false} EntriesAnti(a: seq<HEntry>, b: seq<HEntry>, i: nat)
    requires |a| == |b| && i <= |a|
    ensures EntriesCmp(a, b, i) == -EntriesCmp(b, a, i)
    decreases |a| - i
  {
    if i < |a| { EntriesAnti(a, b, i + 1); }
  }

  lemma {:induction false} EntriesTrans(a: seq<HEntry>, b: seq<HEntry>, c: seq<HEntry>, i: nat)
    requires |a| == |b| == |c| && i <= |a| && EntriesCmp(a, b, i) <= 0 && EntriesCmp(b, c, i) <= 0
    ensures EntriesCmp(a, c, i) <= 0
    decreases |a| - i
  {
    if i < |a| && EntryCmp(a[i], b[i]) == 0 && EntryCmp(b[i], c[i]) == 0 { EntriesTrans(a, b, c, i + 1); }
  }

  /** Zero means the same value byte for byte, hence, for canonical values, the same map. */
  lemma OrderZero(g: HStore, h: HStore)
    requires WellFormed(g) && WellFormed(h)
    ensures Order(g, h) == 0 <==> g == h
    ensures Canonical(g) && Canonical(h) ==> (Order(g, h) == 0 <==> Content(g) == Content(h))
  {
    CmpZero(g.str, h.str);
    if |g.ents| == |h.ents| {
      EntriesZero(g.ents, h.ents, 0);
      if Order(g, h) == 0 {
        forall i | 0 <= i < |g.ents| ensures g.ents[i] == h.ents[i] {
          assert EntryCmp(g.ents[i], h.ents[i]) == 0 && EntryOk(g.ents, i) && EntryOk(h.ents, i);
        }
      }
    }
    if Canonical(g) && Canonical(h) && Content(g) == Content(h) { CanonicalUnique(g, h); }
  }

  lemma OrderAnti(g: HStore, h: HStore)
    ensures Order(g, h) == -Order(h, g)
  {
    CmpAnti(g.str, h.str);
    if |g.ents| == |h.ents| { EntriesAnti(g.ents, h.ents, 0); }
  }

  lemma OrderTrans(f: HStore, g: HStore, h: HStore)
    requires Order(f, g) <= 0 && Order(g, h) <= 0
    ensures Order(f, h) <= 0
  {
    if |f.ents| > 0 && Cmp(f.str, g.str) <= 0 && Cmp(g.str, h.str) <= 0 {
      CmpTrans(f.str, g.str, h.str);
      CmpZero(f.str, g.str);
      CmpZero(g.str, h.str);
      CmpZero(f.str, h.str);
      if |f.ents| == |g.ents| == |h.ents| && f.str == g.str == h.str { EntriesTrans(f.ents, g.ents, h.ents, 0); }
    }
  }
}
