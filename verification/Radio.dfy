/** The radio driver over the chip's registers. */
module Radio {
  import opened Fragments

  // The two bits of CONFIG that change.
  datatype Config = Config(primRx: bool, pwrUp: bool)

  // A register with one bit for each pipe.
  datatype Pipes = Pipes(p0: bool, p1: bool, p2: bool, p3: bool, p4: bool, p5: bool) {
    predicate Has(pipe: nat) {
      match pipe
      case 0 => p0
      case 1 => p1
      case 2 => p2
      case 3 => p3
      case 4 => p4
      case _ => pipe == 5 && p5
    }

    function With(pipe: nat, on: bool): (r: Pipes)
      ensures forall i :: 0 <= i <= 5 ==> r.Has(i) == if i == pipe then on else Has(i)
    {
      match pipe
      case 0 => this.(p0 := on)
      case 1 => this.(p1 := on)
      case 2 => this.(p2 := on)
      case 3 => this.(p3 := on)
      case 4 => this.(p4 := on)
      case _ => if pipe == 5 then this.(p5 := on) else this
    }
  }

  const ALL_PIPES := Pipes(true, true, true, true, true, true)
  const NO_PIPES := Pipes(false, false, false, false, false, false)

  // Where the transmitter is aimed, and whether the receiver is to acknowledge.
  datatype Transmission = Transmission(address: seq<int>, autoAck: bool)

  // A frame given to the chip, or what the chip reports when its queue is to be empty.
  datatype OnAir = Sent(to: Transmission, frame: Frame) | Reported(ok: bool)

  // The addresses a node listens to, as the registers hold them.
  datatype Own = Own(p0: seq<int>, p1: seq<int>, low: seq<int>) {
    function Pipe(pipe: nat): seq<int>
      requires pipe <= 5 && |low| == 4 && |p1| == 5
    {
      if pipe == 0 then p0 else if pipe == 1 then p1 else [low[pipe - 2]] + p1[1..]
    }
  }

  datatype Mode = Listening | Transmitting | Untuned

  class RF24 {
    // the chip
    var config: Config
    var enAA: Pipes            // auto-ack
    var enRxAddr: Pipes        // listening
    var rxAddrP0: seq<int>
    var rxAddrP1: seq<int>
    var rxAddrLow: seq<int>    // the one byte pipes 2 to 5 store
    var txAddr: seq<int>
    var ce: bool
    var stuck: bool            // the queue is full of payloads that nobody acknowledged

    // the driver
    var configReg: Config      // what the driver believes CONFIG to be
    var pipe0ReadingAddress: seq<int>
    var isP0Rx: bool
    var ackPayloadsEnabled: bool

    ghost var log: seq<OnAir>  // everything ever sent and reported

    ghost predicate Valid()
      reads this
    {
      |rxAddrP0| == 5 && |rxAddrP1| == 5 && |rxAddrLow| == 4 && |pipe0ReadingAddress| == 5
    }

    // The registers that sending never touches, or that every send puts back.
    ghost predicate Tuned(own: Own)
      reads this
    {
      && Valid() && isP0Rx && pipe0ReadingAddress == own.p0 && rxAddrP1 == own.p1 && rxAddrLow == own.low
      && enRxAddr == ALL_PIPES && enAA.With(0, true) == ALL_PIPES && config == configReg && config.pwrUp
    }

    /**
     Listening: on all six pipes, each at its own address, answering on all but
     the shared pipe 0.  Transmitting: pipe 0 may be somebody else's for now.
     */
    ghost function Mode(own: Own): Mode
      reads this
    {
      if !Tuned(own) then Untuned
      else if !config.primRx then Transmitting
      else if ce && rxAddrP0 == own.p0 && !enAA.p0 then Listening
      else Untuned
    }

    // The transmitter is set for one destination, and pipe 0 for the acknowledgement.
    ghost predicate Aimed(t: Transmission)
      reads this
    {
      txAddr == rxAddrP0 == t.address && (enAA.p0 <==> t.autoAck)
    }

    // The address the chip listens to on a pipe: pipes 2 to 5 take all but their lowest byte from pipe 1.
    function Listens(pipe: nat): seq<int>
      reads this
      requires Valid() && pipe <= 5
    {
      if pipe == 0 then rxAddrP0 else if pipe == 1 then rxAddrP1 else [rxAddrLow[pipe - 2]] + rxAddrP1[1..]
    }

    /** A tuned radio listens to the own address of every pipe but 0, and of that one too when it is listening. */
    lemma ListensToOwn(own: Own, pipe: nat)
      requires Mode(own) != Untuned && pipe <= 5
      ensures |own.low| == 4 && |own.p1| == 5 && Valid()
      ensures pipe >= 1 || Mode(own) == Listening ==> Listens(pipe) == own.Pipe(pipe)
    {
    }

    constructor ()
      ensures Valid() && configReg == config && !isP0Rx
    {
      config, enAA, enRxAddr := Config(false, false), ALL_PIPES, NO_PIPES.(p0 := true, p1 := true);
      rxAddrP0, rxAddrP1, rxAddrLow := [0, 0, 0, 0, 0], [0, 0, 0, 0, 0], [0, 0, 0, 0];
      txAddr, ce, stuck := [0, 0, 0, 0, 0], false, false;
      configReg, pipe0ReadingAddress := Config(false, false), [0, 0, 0, 0, 0];
      isP0Rx, ackPayloadsEnabled := false, false;
      log := [];
    }

    method PowerUp()
      requires Valid()
      modifies this`config, this`configReg
      ensures Valid() && configReg == old(configReg).(pwrUp := true)
      ensures config == if old(configReg).pwrUp then old(config) else configReg
    {
      if !configReg.pwrUp {
        configReg := configReg.(pwrUp := true);
        config := configReg;
      }
    }

    /** Into receive mode, with pipe 0 listening again to its own address, or closed if it never had one. */
    method StartListening()
      requires Valid()
      modifies this`config, this`configReg, this`ce, this`rxAddrP0, this`enRxAddr, this`isP0Rx
      ensures Valid() && ce && config == configReg == Config(true, true)
      ensures isP0Rx == old(isP0Rx)
      ensures rxAddrP0 == if isP0Rx then pipe0ReadingAddress else old(rxAddrP0)
      ensures enRxAddr == if isP0Rx then old(enRxAddr) else old(enRxAddr).(p0 := false)
    {
      PowerUp();
      configReg := configReg.(primRx := true);
      config := configReg;
      ce := true;
      if isP0Rx {
        rxAddrP0 := pipe0ReadingAddress;
      } else {
        CloseReadingPipe(0);
      }
    }

    /** Out of receive mode; pipe 0 is kept open for the acknowledgement of what will be sent. */
    method StopListening()
      requires Valid()
      modifies this`config, this`configReg, this`ce, this`enRxAddr
      ensures Valid() && !ce && config == configReg == old(configReg).(primRx := false)
      ensures enRxAddr == old(enRxAddr).(p0 := true)
    {
      ce := false;
      configReg := configReg.(primRx := false);
      config := configReg;
      enRxAddr := enRxAddr.(p0 := true);
    }

    method CloseReadingPipe(pipe: nat)
      requires Valid() && pipe <= 5
      modifies this`enRxAddr, this`isP0Rx
      ensures Valid() && enRxAddr == old(enRxAddr).With(pipe, false)
      ensures isP0Rx == (old(isP0Rx) && pipe != 0)
    {
      enRxAddr := enRxAddr.With(pipe, false);
      if pipe == 0 {
        isP0Rx := false;
      }
    }

    /** Only pipes 0 and 1 store a whole address; pipe 0's is also remembered, because sending overwrites it. */
    method OpenReadingPipe(child: nat, address: seq<int>)
      requires Valid() && |address| == 5
      modifies this`pipe0ReadingAddress, this`isP0Rx, this`rxAddrP0, this`rxAddrP1, this`rxAddrLow, this`enRxAddr
      ensures Valid()
      ensures isP0Rx == (old(isP0Rx) || child == 0)
      ensures pipe0ReadingAddress == if child == 0 then address else old(pipe0ReadingAddress)
      ensures rxAddrP0 == if child == 0 then address else old(rxAddrP0)
      ensures rxAddrP1 == if child == 1 then address else old(rxAddrP1)
      ensures rxAddrLow == if 2 <= child <= 5 then old(rxAddrLow)[child - 2 := address[0]] else old(rxAddrLow)
      ensures enRxAddr == old(enRxAddr).With(child, true)
    {
      if child == 0 {
        pipe0ReadingAddress := address;
        isP0Rx := true;
      }
      if child <= 5 {
        if child == 0 {
          rxAddrP0 := address;
        } else if child == 1 {
          rxAddrP1 := address;
        } else {
          rxAddrLow := rxAddrLow[child - 2 := address[0]];
        }
        enRxAddr := enRxAddr.With(child, true);
      }
    }

    /** Sending takes pipe 0 as well: the acknowledgement comes back on the address sent to. */
    method OpenWritingPipe(address: seq<int>)
      requires Valid() && |address| == 5
      modifies this`rxAddrP0, this`txAddr
      ensures Valid() && rxAddrP0 == txAddr == address
    {
      rxAddrP0 := address;
      txAddr := address;
    }

    method SetAutoAckAll(enable: bool)
      requires Valid()
      modifies this`enAA, this`ackPayloadsEnabled
      ensures Valid() && enAA == if enable then ALL_PIPES else NO_PIPES
    {
      if enable {
        enAA := ALL_PIPES;
      } else {
        enAA := NO_PIPES;
        ackPayloadsEnabled := false;
      }
    }

    method SetAutoAck(pipe: nat, enable: bool)
      requires Valid()
      modifies this`enAA, this`ackPayloadsEnabled
      ensures Valid()
      ensures enAA == old(enAA).With(pipe, enable)
    {
      if pipe < 6 {
        if enable {
          enAA := enAA.With(pipe, true);
        } else {
          enAA := enAA.With(pipe, false);
          if ackPayloadsEnabled && pipe == 0 {
            ackPayloadsEnabled := false;
          }
        }
      }
    }

    /**
     Queues a payload, unless the queue is stuck.  The chip must be up and
     transmitting, and where an acknowledgement is asked for, pipe 0 must listen
     for it on the address sent to.
     */
    method WriteFast(frame: Frame) returns (ok: bool)
      requires Valid() && config.pwrUp && !config.primRx
      requires enAA.p0 ==> rxAddrP0 == txAddr && enRxAddr.p0
      modifies this`ce, this`stuck, this`log
      ensures Valid() && ok == !old(stuck)
      ensures ce == (ok || old(ce))
      ensures log == old(log) + if ok then [Sent(Transmission(txAddr, enAA.p0), frame)] else []
    {
      ok := !stuck;
      if ok {
        ce := true;
        log := log + [Sent(Transmission(txAddr, enAA.p0), frame)];
        stuck := *;
      }
    }

    /** Waits until everything queued is sent or given up; only a chip that does not react leaves CE high. */
    method TxStandBy() returns (ok: bool)
      requires Valid()
      modifies this`ce, this`stuck, this`log
      ensures Valid() && (ok ==> !ce && !stuck) && log == old(log) + [Reported(ok)]
    {
      ok := *;
      log := log + [Reported(ok)];
      var noReaction := *;
      if ok || !noReaction {
        ce, stuck := false, false;
      }
    }
  }
}
