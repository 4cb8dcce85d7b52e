/**
 * The application's main status (`MatrixLevel`) and how it follows the
 * status of the session while waiting for the peers.
 */
module Level {
  import opened Wire
  import opened Protocol

  const MCAM_NONE := 1
  const MCAM_WAIT := 2
  const MCAM_TIMEOUT := 3
  const MCAM_ORIENTATION := 4
  const MCAM_FRAMENO := 5
  const MCAM_READY := 6
  const MCAM_GO := 7
  const MCAM_INTERRUPT := 8
  const MCAM_DOWNLOAD := 9
  const MCAM_NO_DISPLAY := 10
  const MCAM_DISPLAY := 11
  const MCAM_PAUSED := 0xff

  /** The main statuses; none is zero, so the byte a client reports in its verify reply is never empty. */
  predicate IsMainStatus(s: int)
  {
    (MCAM_NONE <= s <= MCAM_DISPLAY) || s == MCAM_PAUSED
  }

  lemma MainStatusNonZero(s: int)
    requires IsMainStatus(s)
    ensures 0 < s < 256
  {
  }

  /** The frame number the server runs with: frame 1. */
  const SERVER_FRAME_NO := 1

  /**
   * The main status after checking the session, as a specification: nothing
   * changes before a session exists; the server keeps its status during the
   * countdown, waits while peers join or are checked, and reports a
   * time-out; a client only reports a time-out.
   */
  function WaitStatus(status: int, frameNo: int, conn: Option<int>): (r: int)
    ensures conn.None? ==> r == status
    ensures conn.Some? && frameNo == SERVER_FRAME_NO && status in {MCAM_ORIENTATION, MCAM_READY, MCAM_GO} ==> r == status
    ensures r == status || r == MCAM_WAIT || r == MCAM_TIMEOUT
    ensures r == MCAM_WAIT && r != status ==> conn.Some? && frameNo == SERVER_FRAME_NO && conn.value in {CONN_NEW, CONN_VERIFY, CONN_ORIENTATION}
    ensures r == MCAM_TIMEOUT && r != status ==> conn == Some(CONN_TIMEOUT)
    ensures (conn.Some? && frameNo == SERVER_FRAME_NO && status !in {MCAM_ORIENTATION, MCAM_READY, MCAM_GO} &&
      conn.value in {CONN_NEW, CONN_VERIFY, CONN_ORIENTATION}) ==> r == MCAM_WAIT
    ensures (conn.Some? && frameNo != SERVER_FRAME_NO && conn.value != CONN_TIMEOUT) ==> r == status
    ensures (conn.Some? && conn.value !in {CONN_NEW, CONN_VERIFY, CONN_ORIENTATION, CONN_TIMEOUT}) ==> r == status
  {
    match conn
    case None => status
    case Some(c) =>
      if frameNo == SERVER_FRAME_NO then
        if status == MCAM_ORIENTATION || status == MCAM_READY || status == MCAM_GO then status
        else if c == CONN_NEW || c == CONN_VERIFY || c == CONN_ORIENTATION then MCAM_WAIT
        else if c == CONN_TIMEOUT then MCAM_TIMEOUT
        else status
      else if c == CONN_TIMEOUT then MCAM_TIMEOUT
      else status
  }

  /** A session that timed out is always reported, except by a server already counting down. */
  lemma TimeOutReported(status: int, frameNo: int)
    requires !(frameNo == SERVER_FRAME_NO && status in {MCAM_ORIENTATION, MCAM_READY, MCAM_GO})
    ensures WaitStatus(status, frameNo, Some(CONN_TIMEOUT)) == MCAM_TIMEOUT
  {
  }

  /** Checking twice against the same session status changes nothing more. */
  lemma WaitStatusIdempotent(status: int, frameNo: int, conn: Option<int>)
    ensures WaitStatus(WaitStatus(status, frameNo, conn), frameNo, conn) == WaitStatus(status, frameNo, conn)
  {
  }

  /** What the level keeps of its state for this check. */
  class MatrixLevel {
    /** The main status (`mStatus`). */
    var status: int
    /** 0 before a role is chosen, 1 on the server, from 2 on a client (`mFrameNo`). */
    var frameNo: int

    constructor (frameNo: int)
      ensures status == MCAM_NONE && this.frameNo == frameNo
    {
      status := MCAM_NONE;
      this.frameNo := frameNo;
    }

    /**
     * Follows the session, given its status when a session exists
     * (`None` before the server or client is created).
     */
    method CheckWait(conn: Option<int>)
      modifies this`status
      ensures status == WaitStatus(old(status), frameNo, conn)
    {
      if conn.None? {
        return;
      }
      if frameNo == SERVER_FRAME_NO {
        if status == MCAM_ORIENTATION || status == MCAM_READY || status == MCAM_GO {
          return;
        }
        var c := conn.value;
        if c == CONN_NEW || c == CONN_VERIFY || c == CONN_ORIENTATION {
          status := MCAM_WAIT;
        } else if c == CONN_TIMEOUT {
          status := MCAM_TIMEOUT;
        }
      } else if conn.value == CONN_TIMEOUT {
        status := MCAM_TIMEOUT;
      }
    }
  }
}
