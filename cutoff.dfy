/** The age threshold of one cleanup run: the instant `daysOld` whole days before `now`. */
module Cutoff {

  /** Milliseconds in one day: 24 hours of 60 minutes of 60 seconds of 1000 ms. */
  const MS_PER_DAY: nat := 24 * 60 * 60 * 1000

  /** The cutoff instant, in ms since the epoch, for a run started at `now`.
      It never lies after `now`, and it is `now` itself only when no days are allowed. */
  function CutoffDate(now: int, daysOld: nat): (cutoff: int)
    ensures cutoff <= now
    ensures cutoff == now <==> daysOld == 0
  {
    now - daysOld * MS_PER_DAY
  }

  /** A creation time lies strictly before the cutoff exactly when the version is
      more than `daysOld` days (of 86 400 000 ms) old at `now`. */
  lemma OlderThanCutoff(now: int, daysOld: nat, createdAt: int)
    ensures createdAt < CutoffDate(now, daysOld) <==> now - createdAt > daysOld * 86_400_000
  {
    assert MS_PER_DAY == 86_400_000;
  }

  /** Allowing more days moves the cutoff further into the past. */
  lemma CutoffAntitone(now: int, fewer: nat, more: nat)
    requires fewer <= more
    ensures CutoffDate(now, more) <= CutoffDate(now, fewer)
    ensures CutoffDate(now, fewer) - CutoffDate(now, more) == (more - fewer) * 86_400_000
  {
    assert more * MS_PER_DAY - fewer * MS_PER_DAY == (more - fewer) * MS_PER_DAY;
  }
}
