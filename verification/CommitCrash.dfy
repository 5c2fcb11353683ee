/** The condition under which a crash inside a commit is harmless, for the WAL and for the delivery protocol. */
module CommitCrash {
  import opened Delivery
  import W = Wal

  /** What a WAL directory with checkpoint `c` and segments `lo..hi - 1` is in the transition system. */
  ghost predicate Stands(s: State, c: W.Checkpoint, lo: nat, hi: nat, appended: nat, resent: nat) {
    && s.disk == Disk(W.NextOf(c), c.ackedBytes > 0, lo >= hi)
    && |s.wal.log| == appended && s.wal.saved + resent == appended
  }

  /** The transition system lets a crash pass exactly when the WAL is reopened well. */
  lemma RecoverableIff(s: State, c: W.Checkpoint, lo: nat, hi: nat, appended: nat, resent: nat)
    requires Stands(s, c, lo, hi, appended, resent)
    ensures Recoverable(s) <==> W.ReopensWell(c, lo, hi, appended, resent)
  {
  }

  /** Between the removal of a segment and the saving of the checkpoint: a WAL may die in `Retire` exactly
      when the transition system allows a crash without `commitCrashes`. */
  lemma CrashAllowedIff(cfg: Config, s: State, w: W.Wal)
    requires w.Settled() && !cfg.commitCrashes
    requires Stands(s, w.saved, w.cp.segStart, w.End(), |w.log|, w.Resent())
    ensures Enabled(cfg, s, SenderCrash) <==> w.CrashSafe([])
  {
    w.SettledCrash();
    RecoverableIff(s, w.saved, w.cp.segStart, w.End(), |w.log|, w.Resent());
  }
}
