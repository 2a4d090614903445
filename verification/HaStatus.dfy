/** The status record each node keeps, and the rules by which the two nodes of
    an active/standby pair elect the active one. */
module HaStatus {

  /** The three enumerators of the status. The wire carries a 16-bit integer
      that is cast back unchecked, so a receiver may also see Unknown. */
  datatype Status = Pending | Active | Standby | Unknown(code: int)

  /** Clock readings are ticks of 100 nanoseconds since the epoch. */
  const TICKS_PER_MS: nat := 10000

  /** What the peer's clock reading becomes on the wire: whole milliseconds. */
  function Wire(t: nat): (w: nat)
    ensures w <= t < w + TICKS_PER_MS && w % TICKS_PER_MS == 0
  {
    t / TICKS_PER_MS * TICKS_PER_MS
  }

  function Millis(t: nat): nat {
    t / TICKS_PER_MS
  }

  datatype Rep = Rep(status: Status, changeTime: nat, peerLive: nat)

  predicate Known(r: Rep) {
    !r.status.Unknown?
  }

  /** The answer to "may I, the peer, be active?". */
  function Allow(peerTime: nat, peerStatus: Status, me: Rep): bool {
    match peerStatus
    case Pending =>
      (match me.status
       case Active => false
       case Standby => true
       case Pending => peerTime < me.changeTime
       case Unknown(_) => false)
    case Active =>
      (match me.status
       case Active => peerTime > me.changeTime
       case Standby => true
       case Pending => true
       case Unknown(_) => false)
    case Standby =>
      (match me.status
       case Active => false
       case Standby => peerTime < me.changeTime
       case Pending => false
       case Unknown(_) => false)
    case Unknown(_) => false
  }

  /** Moving to status s leaves the change time alone when nothing changes. */
  function Become(r: Rep, s: Status, now: nat): Rep {
    if r.status == s then r else r.(status := s, changeTime := now)
  }

  /** The record after the peer's answer arrives. */
  function Answered(r: Rep, allowed: bool, heard: nat, now: nat): Rep {
    Become(r.(peerLive := heard), if allowed then Active else Standby, now)
  }

  /** The application's callback object; it records what it was told. */
  class Callback {
    var changes: seq<Status>
    var data: seq<string>

    constructor ()
      ensures changes == [] && data == []
    {
      changes, data := [], [];
    }

    method OnStatusChange(s: Status)
      modifies this
      ensures changes == old(changes) + [s] && data == old(data)
    {
      changes := changes + [s];
    }

    method OnReceiveData(d: string)
      modifies this
      ensures data == old(data) + [d] && changes == old(changes)
    {
      data := data + [d];
    }
  }

  class StatusRep {
    var status: Status
    var changeTime: nat
    var peerLiveTime: nat
    var callback: Callback?

    function View(): Rep
      reads this
    {
      Rep(status, changeTime, peerLiveTime)
    }

    function Listener(): set<object>
      reads this
    {
      if callback == null then {} else {callback}
    }

    /** One notification when the status changed, none otherwise. */
    twostate predicate Notified()
      reads this, callback
    {
      && callback == old(callback)
      && (callback != null ==>
            && callback.changes == old(callback.changes) + (if status == old(status) then [] else [status])
            && callback.data == old(callback.data))
    }

    constructor (created: nat, heard: nat)
      ensures View() == Rep(Pending, created, heard) && callback == null
    {
      status, changeTime, peerLiveTime, callback := Pending, created, heard, null;
    }

    method IfAllowPeerActivate(peerTime: nat, peerStatus: Status, now: nat) returns (allowed: bool)
      modifies this`peerLiveTime
      ensures View() == old(View()).(peerLive := now)
      ensures allowed == Allow(peerTime, peerStatus, old(View()))
    {
      peerLiveTime := now;
      if peerStatus == Pending && status == Active {
        return false;
      }
      if peerStatus == Pending && status == Standby {
        return true;
      }
      if peerStatus == Pending && status == Pending {
        return peerTime < changeTime;
      }
      if peerStatus == Active && status == Active {
        return peerTime > changeTime;
      }
      if peerStatus == Active && status == Standby {
        return true;
      }
      if peerStatus == Active && status == Pending {
        return true;
      }
      if peerStatus == Standby && status == Active {
        return false;
      }
      if peerStatus == Standby && status == Standby {
        return peerTime < changeTime;
      }
      if peerStatus == Standby && status == Pending {
        return false;
      }
      return false;
    }

    method TryActivate(peerAllows: bool, heard: nat, now: nat)
      modifies this, Listener()
      ensures View() == Answered(old(View()), peerAllows, heard, now)
      ensures peerLiveTime == heard && (status == if peerAllows then Active else Standby)
      ensures changeTime == if status != old(status) then now else old(changeTime)
      ensures Notified()
    {
      peerLiveTime := heard;
      if peerAllows {
        if status != Active {
          status := Active;
          changeTime := now;
          if callback != null {
            callback.OnStatusChange(status);
          }
        }
      } else {
        if status != Standby {
          status := Standby;
          changeTime := now;
          if callback != null {
            callback.OnStatusChange(status);
          }
        }
      }
    }

    method Switch(now: nat) returns (ok: bool)
      modifies this, Listener()
      ensures ok == (old(status) == Active)
      ensures View() == if ok then Become(old(View()), Standby, now) else old(View())
      ensures ok ==> status == Standby && changeTime == now
      ensures Notified()
    {
      if status == Active {
        status := Standby;
        changeTime := now;
        if callback != null {
          callback.OnStatusChange(status);
        }
        return true;
      }
      return false;
    }

    method BrainSplit(now: nat)
      modifies this, Listener()
      ensures View() == Become(old(View()), Active, now)
      ensures status == Active && changeTime == if old(status) != Active then now else old(changeTime)
      ensures Notified()
    {
      if status == Active {
        return;
      }
      status := Active;
      changeTime := now;
      if callback != null {
        callback.OnStatusChange(status);
      }
    }

    /** Replicated data is taken on a standby node and refused elsewhere. */
    method RecvData(d: string) returns (ok: bool)
      modifies Listener()
      ensures ok == (status == Standby)
      ensures callback != null ==>
                && callback.data == old(callback.data) + (if ok then [d] else [])
                && callback.changes == old(callback.changes)
    {
      if status != Standby {
        return false;
      }
      if callback != null {
        callback.OnReceiveData(d);
      }
      return true;
    }
  }
}
