/** The matcher's and the settlement's work on one fill, done on the bytes of the two
    accounts: each is one step of the settlement machine. */
module SettlementBytes {
  import opened Bytes
  import opened Wrappers
  import opened FillPreimages
  import opened FillRings
  import FB = FillBuffers
  import FO = FillOutboxes
  import opened Settlement

  /** Flags and table changed, the rest of the account did not. */
  lemma ViewTail(d: seq<byte>, d': seq<byte>, market: Bytes32)
    requires FB.Checked(d, market) && FB.SameRing(d, d', FB.CapOf(d))
    ensures FB.Checked(d', market) && FB.CapOf(d') == FB.CapOf(d)
    ensures FB.View(d') == FB.View(d).(flags := FB.FlagsOf(d', FB.CapOf(d)), table := FB.TableOf(d', FB.CapOf(d)))
  {
    FB.HeaderKept(d, d');
  }

  /** One record and both cursors changed. */
  lemma OutboxHeaderKept(d: seq<byte>, d': seq<byte>, market: Bytes32)
    requires FO.Checked(d, market) && |d'| == |d| && d'[..64] == d[..64]
    ensures FO.Checked(d', market) && FO.CapOf(d') == FO.CapOf(d)
    ensures FO.View(d') == FO.View(d).(slots := FO.SlotsOf(d', FO.CapOf(d)))
  {
    var h, h' := d[..64], d'[..64];
    assert d'[0..8] == h'[0..8] && d[0..8] == h[0..8];
    assert d'[8..16] == h'[8..16] && d[8..16] == h[8..16];
    assert d'[16..24] == h'[16..24] && d[16..24] == h[16..24];
    assert d'[24..28] == h'[24..28] && d[24..28] == h[24..28];
    assert d'[32..64] == h'[32..64] && d[32..64] == h[32..64];
  }

  /** Commit one fill and reserve its lots; on failure the transaction is undone by
      the runtime, so the bytes do not matter. */
  method CommitFill(env: Env, fc: array<byte>, f: Fill) returns (ok: bool)
    requires FB.Checked(fc[..], env.market)
    modifies fc
    ensures ok ==> FB.Checked(fc[..], env.market)
    ensures var committed := Committed(env, FB.View(old(fc[..])), f);
      && (ok <==> committed.Some?)
      && (ok ==> FB.View(fc[..]) == committed.value)
  {
    var index := FB.BufferNextIndex(fc[..]);
    var pre := FillPreimage(Fields(env, f, index));
    var res := FB.BufferPush(fc, env.market, env.hash(pre[..]));
    if res.Failed? {
      return false;
    }
    ok := true;
    if f.reduceOnly {
      ghost var d1 := fc[..];
      var cap := FB.CapOf(fc[..]);
      var added := FB.InflightAdd(fc, cap, KeyOf(env, f), f.sizeLots);
      if added.Failed? {
        return false;
      }
      ghost var d2 := fc[..];
      ViewTail(d1, d2, env.market);
      FB.ReduceFlagSet(fc, cap, index);
      ViewTail(d2, fc[..], env.market);
    }
  }

  /** Record one fill with the outbox account, or without one when fo is null. */
  method RecordInPlace(env: Env, fc: array<byte>, fo: array?<byte>, batchCap: nat, f: Fill, ghost w: World)
    returns (ok: bool)
    requires fc != fo && FB.Checked(fc[..], env.market) && w.ring == FB.View(fc[..])
    requires fo != null ==> FO.Checked(fo[..], env.market) && w.outbox == Some(FO.View(fo[..]))
    requires batchCap == EffectiveBatchCap(w)
    modifies fc, fo
    ensures !ok ==> RecordFill(env, w, f, fo != null) == w
    ensures ok ==>
      && FB.Checked(fc[..], env.market)
      && var w' := RecordFill(env, w, f, fo != null);
         && w'.matched == w.matched + [f] && w'.carried == w.carried + [fo != null]
         && w'.ring == FB.View(fc[..])
         && (fo == null ==> w'.outbox == w.outbox)
         && (fo != null ==> FO.Checked(fo[..], env.market) && w'.outbox == Some(FO.View(fo[..])))
  {
    if fo == null {
      if batchCap > MAX_MATCH_BATCH_ORDERS {
        return false;
      }
      ok := CommitFill(env, fc, f);
      return;
    }
    var ringCap, outboxCap := FB.CapOf(fc[..]), FO.CapOf(fo[..]);
    if outboxCap < ringCap {
      return false;
    }
    var index := FB.BufferNextIndex(fc[..]);
    ok := CommitFill(env, fc, f);
    if ok {
      MirrorInPlace(env, fo, outboxCap, index, FB.BufferNextIndex(fc[..]), FB.BufferSettleIndex(fc[..]), f);
    }
  }

  /** The record of one fill, and the cursors of the ring. */
  method MirrorInPlace(
    env: Env, fo: array<byte>, cap: U32, index: U64, produced: U64, settled: U64, f: Fill)
    requires FO.Checked(fo[..], env.market) && cap == FO.CapOf(fo[..])
    modifies fo
    ensures FO.Checked(fo[..], env.market)
    ensures var o := FO.View(old(fo[..]));
      FO.View(fo[..]) == FO.Outbox(produced, settled, o.slots[IndexOf(index, |o.slots|) := Record(f)])
  {
    ghost var o := fo[..];
    var written := FO.OutboxWriteSlot(fo, cap, IndexOf(index, cap), Record(f));
    assert fo[..][..64] == fo[..64] && o[..64] == old(fo[..64]);
    OutboxHeaderKept(o, fo[..], env.market);
    FO.OutboxSetCursors(fo, env.market, produced, settled);
  }

  /** Consume one fill: the commitment, then its flag, then its lots. */
  method SettleInPlace(env: Env, fc: array<byte>, f: Fill, ghost w: World) returns (ok: bool)
    requires FB.Checked(fc[..], env.market) && w.ring == FB.View(fc[..])
    modifies fc
    ensures FB.Checked(fc[..], env.market) && SettleFill(env, w, f).ring == FB.View(fc[..])
    ensures ok <==> SettleFill(env, w, f).settled == w.settled + [f]
    ensures !ok ==> SettleFill(env, w, f) == w
  {
    var index := FB.BufferSettleIndex(fc[..]);
    var pre := FillPreimage(Fields(env, f, index));
    var res := FB.BufferSettle(fc, env.market, env.hash(pre[..]));
    if res.Failed? {
      assert |w.settled + [f]| == |w.settled| + 1;
      return false;
    }
    ghost var d1 := fc[..];
    var cap := FB.CapOf(fc[..]);
    var taken := FB.ReduceFlagTake(fc, cap, index);
    ghost var d2 := fc[..];
    ViewTail(d1, d2, env.market);
    if taken {
      FB.InflightSub(fc, cap, KeyOf(env, f), f.sizeLots);
      ViewTail(d2, fc[..], env.market);
    }
    return true;
  }
}
