/** The miner and the network object that drives it, as objects that update their fields. */
module Miner {
  import opened Mining

  /** The nonce state shared by all workers. */
  class Nonce {
    var paused: bool
    /** The sequence number of every backend: here they always move together. */
    var sequence: nat
    var nonces: map<nat, nat>

    constructor ()
      ensures paused && sequence == 1 && nonces == map[0 := 0, 1 := 0]
    {
      paused, sequence, nonces := true, 1, map[0 := 0, 1 := 0];
    }

    method Pause(on: bool)
      modifies this`paused
      ensures paused == on
    {
      paused := on;
    }

    method Touch()
      modifies this`sequence
      ensures sequence == old(sequence) + 1
    {
      sequence := sequence + 1;
    }

    method Reset(index: nat)
      modifies this`nonces
      ensures nonces == old(nonces)[index := 0]
    {
      nonces := nonces[index := 0];
    }

    method Stop()
      modifies this`paused, this`sequence
      ensures !paused && sequence == 0
    {
      Pause(false);
      sequence := 0;
    }
  }

  class Miner {
    const nonce: Nonce
    var active: bool
    var batteryPower: bool
    var userActive: bool
    var enabled: bool
    var autoPause: int
    var reset: bool
    var job: Job
    var userJobId: string
    var ticks: nat

    constructor ()
      ensures fresh(nonce) && View() == INITIAL
    {
      nonce := new Nonce();
      active, batteryPower, userActive, enabled, autoPause, reset := false, false, false, true, 0, true;
      job, userJobId, ticks := NO_JOB, "", 0;
    }

    ghost function View(): State
      reads this, nonce
    {
      State(enabled, active, reset, autoPause, batteryPower, userActive, job, userJobId, ticks,
            nonce.paused, nonce.sequence, nonce.nonces)
    }

    method HandleJobChange()
      modifies this`ticks, nonce
      ensures View() == AfterJobChange(old(View()))
    {
      if !enabled {
        nonce.Pause(true);
      }
      if reset {
        nonce.Reset(job.index);
      }
      nonce.Touch();
      if active && enabled {
        nonce.Pause(false);
      }
      if ticks == 0 {
        ticks := ticks + 1;
      }
    }

    method Pause()
      modifies this`active, nonce
      ensures View() == AfterPause(old(View()))
    {
      active := false;
      nonce.Pause(true);
      nonce.Touch();
    }

    method SetEnabled(on: bool)
      modifies this`enabled, nonce
      ensures View() == AfterSetEnabled(old(View()), on)
    {
      if enabled == on { return; }
      if batteryPower && on { return; }
      enabled := on;
      if !active { return; }
      nonce.Pause(!on);
      nonce.Touch();
    }

    method Stop()
      modifies nonce
      ensures View() == AfterStop(old(View()))
    {
      nonce.Stop();
    }

    /** The readiness of the dataset, before and after its initialisation was asked for, comes from outside. */
    method SetJob(newJob: Job, donate: bool, datasetReady: bool, initReady: bool)
      modifies this, nonce
      ensures View() == AfterSetJob(old(View()), newJob, donate, datasetReady, initReady)
    {
      if newJob.family == RandomX && !datasetReady {
        Stop();
      }
      var index := if donate then 1 else 0;
      reset := !(job.index == 1 && index == 0 && userJobId == newJob.id);
      job := newJob.(index := index);
      if index == 0 {
        userJobId := newJob.id;
      }
      active := true;
      if initReady {
        HandleJobChange();
      }
    }

    method AutoPause(battery: bool, now: bool)
      modifies this, nonce
      ensures View() == AfterAutoPause(old(View()), battery, now)
    {
      hide AfterSetEnabled;
      var state := if battery then batteryPower else userActive;
      if (now && !state) || (!now && state) {
        if battery { batteryPower := now; } else { userActive := now; }
        autoPause := autoPause + if now then 1 else -1;
        assert View() == ReasonChanged(old(View()), battery, now);
        SetEnabled(autoPause == 0);
      }
    }

    method OnTimer(checkBattery: bool, battery: bool, checkUser: bool, user: bool, stopMiner: bool)
      modifies this, nonce
      ensures View() == Step(old(View()), Tick(checkBattery, battery, checkUser, user, stopMiner), false)
    {
      hide AfterAutoPause, AfterStop;
      ticks := ticks + 1;
      assert View() == old(View()).(ticks := old(ticks) + 1);
      if checkBattery {
        AutoPause(true, battery);
      }
      if checkUser {
        AutoPause(false, user);
      }
      if stopMiner {
        Stop();
      }
    }

    method OnDatasetReady(ready: bool)
      modifies this`ticks, nonce
      ensures View() == Step(old(View()), DatasetReady(ready), false)
    {
      if !ready { return; }
      HandleJobChange();
    }
  }

  class Network {
    const miner: Miner
    const hasDonate: bool

    constructor (miner: Miner, hasDonate: bool)
      ensures this.miner == miner && this.hasDonate == hasDonate
    {
      this.miner, this.hasDonate := miner, hasDonate;
    }

    method SetJob(job: Job, donate: bool, datasetReady: bool, initReady: bool)
      modifies miner, miner.nonce
      ensures miner.View() == if Diardi(job.height) then AfterPause(old(miner.View()))
                              else AfterSetJob(old(miner.View()), job, donate, datasetReady, initReady)
    {
      var v8Height := 820102;
      if job.height > v8Height {
        if job.height % 4 == 0 {
          miner.Pause();
          return;
        }
      }
      miner.SetJob(job, donate, datasetReady, initReady);
    }

    method OnJob(job: Job, fromDonate: bool, donating: bool, datasetReady: bool, initReady: bool)
      modifies miner, miner.nonce
      ensures miner.View()
              == Step(old(miner.View()), PoolJob(job, fromDonate, donating, datasetReady, initReady), hasDonate)
    {
      if hasDonate && donating && !fromDonate { return; }
      SetJob(job, hasDonate && fromDonate, datasetReady, initReady);
    }

    /** stillActive: the user's pools, resumed when a donation ends, have an active connection. */
    method OnPause(stillActive: bool)
      modifies miner, miner.nonce
      ensures miner.View() == Step(old(miner.View()), PoolPause(stillActive), hasDonate)
    {
      if !stillActive {
        miner.Pause();
      }
    }
  }
}
