/**
 Pins shared between paths: how many are open on each, how many of those want
 to drive it, and which way the pin is actually turned.
 */
module Gpio {

  datatype Error = Done | NotFound | Taken | NoMemory | Failed

  /** What is kept of a pin, and the pin itself: which way it is turned, and how often it has been reset. */
  datatype Pin = Pin(openCount: nat, outputCount: nat, reclaimed: bool, driving: bool, turnedOut: bool, resets: nat)

  const UNTOUCHED := Pin(0, 0, false, false, false, 0)

  /** The counts are those of the paths; a pin somebody drives is driven, turned that way, and was reset once. */
  predicate PinOk(p: Pin, paths: nat, wanting: nat, broken: bool) {
    && p.openCount == paths && p.outputCount == wanting
    && (p.outputCount > 0 ==> p.driving)
    && (p.openCount > 0 ==> p.reclaimed)
    && p.resets == (if p.reclaimed then 1 else 0)
    && (p.reclaimed && !broken ==> p.turnedOut == p.driving)
  }

  /** One path to a pin. */
  class Path {
    const pin: nat
    var output: bool

    constructor (pin: nat, output: bool)
      ensures this.pin == pin && this.output == output
    {
      this.pin, this.output := pin, output;
    }
  }

  class Driver {
    const absent: set<nat>
    const reserved: set<nat>
    const pins: array<Pin>
    ghost var paths: set<Path>
    /** Pins on which the last call to the hardware failed. */
    ghost var broken: set<nat>

    /** The paths open on a pin, and those of them that want to drive it. */
    ghost function On(pin: nat): set<Path>
      reads this, paths
    {
      set p | p in paths && p.pin == pin
    }

    ghost function Wanting(pin: nat): set<Path>
      reads this, paths
    {
      set p | p in paths && p.pin == pin && p.output
    }

    ghost predicate PinValid(pin: nat)
      requires pin < pins.Length
      reads this, paths, pins
    {
      PinOk(pins[pin], |On(pin)|, |Wanting(pin)|, pin in broken)
    }

    ghost predicate Valid()
      reads this, paths, pins
    {
      && (forall p | p in paths :: p.pin < pins.Length)
      && forall pin | 0 <= pin < pins.Length :: PinValid(pin)
    }

    constructor (count: nat, absent: set<nat>, reserved: set<nat>)
      ensures Valid() && paths == {} && broken == {} && fresh(pins) && pins.Length == count
      ensures forall p | 0 <= p < count :: pins[p] == UNTOUCHED
    {
      this.absent, this.reserved := absent, reserved;
      pins := new Pin[count](_ => UNTOUCHED);
      paths, broken := {}, {};
    }

    /** Turns a pin, after a reset if it is being taken over; `works` says whether the hardware does. */
    method Configure(pin: nat, reclaim: bool, drive: bool, works: bool)
      requires pin < pins.Length
      modifies pins, this`broken
      ensures broken == if works then old(broken) - {pin} else old(broken) + {pin}
      ensures var was, now := old(pins[pin]), pins[pin];
        && now.resets == was.resets + (if reclaim then 1 else 0)
        && now == was.(resets := now.resets, turnedOut := now.turnedOut)
        && (works ==> now.turnedOut == drive)
      ensures forall q | 0 <= q < pins.Length && q != pin :: pins[q] == old(pins[q])
    {
      if reclaim { pins[pin] := pins[pin].(resets := pins[pin].resets + 1, turnedOut := false); }
      if works {
        pins[pin] := pins[pin].(turnedOut := drive);
        broken := broken - {pin};
      } else {
        broken := broken + {pin};
      }
    }

    /** The pins one call does not touch are as they were, and so are the paths on them. */
    twostate lemma OthersStay(pin: nat)
      requires old(Valid()) && (forall p | p in paths :: p.pin < pins.Length)
      requires forall q | 0 <= q < pins.Length && q != pin :: pins[q] == old(pins[q])
      requires forall p: Path | p.pin != pin :: p in paths <==> p in old(paths)
      requires forall p: Path | p in old(paths) && p.pin != pin :: p.output == old(p.output)
      requires forall q | q != pin :: q in broken <==> q in old(broken)
      ensures forall q | 0 <= q < pins.Length && q != pin :: PinValid(q)
    {
      forall q | 0 <= q < pins.Length && q != pin ensures PinValid(q) {
        assert old(PinValid(q));
        assert On(q) == old(On(q)) && Wanting(q) == old(Wanting(q));
      }
    }

    /** Books a path, turns the pin, and takes the booking back if the hardware fails. */
    method Claim(pin: nat, write: bool, works: bool)
      requires Valid() && pin < pins.Length
      modifies this`broken, pins
      ensures broken == if works then old(broken) - {pin} else old(broken) + {pin}
      ensures var was, now, n := old(pins[pin]), pins[pin], if works then 1 else 0;
        && now.openCount == was.openCount + n && now.outputCount == was.outputCount + (if write then n else 0)
        && now.driving == (was.driving || write) && now.resets == (if now.reclaimed then 1 else 0) && now.reclaimed
        && (works ==> now.turnedOut == now.driving)
      ensures forall q | 0 <= q < pins.Length && q != pin :: pins[q] == old(pins[q])
    {
      assert PinValid(pin);
      var s := pins[pin];
      var first := s.openCount == 0;
      s := s.(openCount := s.openCount + 1);
      if write { s := s.(outputCount := s.outputCount + 1, driving := true); }
      var drive := s.outputCount > 0 || s.driving;
      var reclaim := first && !s.reclaimed;
      if reclaim { s := s.(reclaimed := true); }
      pins[pin] := s;
      Configure(pin, reclaim, drive, works);
      if !works {
        s := pins[pin];
        s := s.(openCount := s.openCount - 1);
        if write { s := s.(outputCount := s.outputCount - 1); }
        pins[pin] := s;
      }
    }

    /** Opens a path: its pin is an output from then on if the path means to write, and otherwise stays what it was. */
    method Open(pin: nat, write: bool, memory: bool, works: bool) returns (err: Error, path: Path?)
      requires Valid()
      modifies this`paths, this`broken, pins
      ensures Valid()
      ensures err == if pin in absent || pin >= pins.Length then NotFound else if pin in reserved then Taken
        else if !memory then NoMemory else if !works then Failed else Done
      ensures err == Done ==> path != null && fresh(path) && path.pin == pin && path.output == write
      ensures err == Done ==> paths == old(paths) + {path} && broken == old(broken) - {pin}
      ensures err == Done ==> pins[pin].turnedOut == pins[pin].driving == (old(pins[pin].driving) || write)
      ensures err == Done ==> pins[pin].openCount == old(pins[pin].openCount) + 1
      ensures err == Done ==> pins[pin].outputCount == old(pins[pin].outputCount) + (if write then 1 else 0)
      ensures err != Done ==> paths == old(paths)
      // the first open resets the pin, whether or not it works, and none after it does
      ensures err == Done || err == Failed ==>
                pins[pin].reclaimed && old(pins[pin].resets) <= pins[pin].resets == 1
      ensures err == Failed ==> pins[pin].driving == (old(pins[pin].driving) || write) && broken == old(broken) + {pin}
      ensures err != Done && err != Failed ==> pins[..] == old(pins[..]) && broken == old(broken)
      ensures forall q | 0 <= q < pins.Length && q != pin :: pins[q] == old(pins[q])
    {
      path := null;
      if pin in absent { return NotFound, null; }
      if pin >= pins.Length { return NotFound, null; }
      if pin in reserved { return Taken, null; }
      if !memory { return NoMemory, null; }
      Book(pin, write, works);
      if !works { return Failed, null; }
      path := Admit(pin, write);
      err := Done;
    }

    /** A pin booked and turned: for one path more than there is yet, if the hardware did as it was told. */
    method Book(pin: nat, write: bool, works: bool)
      requires Valid() && pin < pins.Length
      modifies this`broken, pins
      ensures broken == if works then old(broken) - {pin} else old(broken) + {pin}
      ensures !works ==> Valid()
      ensures works ==> Expecting(pin, write)
      ensures pins[pin].driving == (old(pins[pin].driving) || write)
      ensures works ==> pins[pin].turnedOut == pins[pin].driving
      ensures works ==> pins[pin].openCount == old(pins[pin].openCount) + 1
      ensures works ==> pins[pin].outputCount == old(pins[pin].outputCount) + (if write then 1 else 0)
      ensures pins[pin].reclaimed && old(pins[pin].resets) <= pins[pin].resets == 1
      ensures forall q | 0 <= q < pins.Length && q != pin :: pins[q] == old(pins[q])
    {
      assert PinValid(pin);
      Claim(pin, write, works);
      assert On(pin) == old(On(pin)) && Wanting(pin) == old(Wanting(pin));
      OthersStay(pin);
    }

    /** Everything is in order once one more path is open on this pin. */
    ghost predicate Expecting(pin: nat, write: bool)
      requires pin < pins.Length
      reads this, paths, pins
    {
      && (forall p | p in paths :: p.pin < pins.Length)
      && (forall q | 0 <= q < pins.Length && q != pin :: PinValid(q))
      && PinOk(pins[pin], |On(pin)| + 1, |Wanting(pin)| + (if write then 1 else 0), pin in broken)
    }

    method Admit(pin: nat, write: bool) returns (path: Path)
      requires pin < pins.Length && Expecting(pin, write)
      modifies this`paths
      ensures Valid() && fresh(path) && path.pin == pin && path.output == write && paths == old(paths) + {path}
    {
      path := new Path(pin, write);
      Register(path);
    }

    ghost method Register(path: Path)
      requires path !in paths && path.pin < pins.Length && Expecting(path.pin, path.output)
      modifies this`paths
      ensures Valid() && paths == old(paths) + {path}
    {
      var pin := path.pin;
      paths := paths + {path};
      assert On(pin) == old(On(pin)) + {path};
      assert path.output ==> Wanting(pin) == old(Wanting(pin)) + {path};
      assert !path.output ==> Wanting(pin) == old(Wanting(pin));
      forall q | 0 <= q < pins.Length && q != pin ensures PinValid(q) {
        assert old(PinValid(q));
        assert On(q) == old(On(q)) && Wanting(q) == old(Wanting(q));
      }
    }

    /** Closes a path. The level, and so the direction, stay as they are. */
    method Close(path: Path)
      requires Valid() && path in paths
      modifies this`paths, pins
      ensures Valid() && paths == old(paths) - {path}
      ensures var was, now := old(pins[path.pin]), pins[path.pin];
        && now == was.(openCount := now.openCount, outputCount := now.outputCount)
        && now.openCount + 1 == was.openCount && now.outputCount + (if path.output then 1 else 0) == was.outputCount
      ensures forall q | 0 <= q < pins.Length && q != path.pin :: pins[q] == old(pins[q])
    {
      var pin := path.pin;
      assert PinValid(pin);
      paths := paths - {path};
      Gone(path);
      var s := pins[pin];
      if s.openCount > 0 { s := s.(openCount := s.openCount - 1); }
      if path.output && s.outputCount > 0 { s := s.(outputCount := s.outputCount - 1); }
      pins[pin] := s;
      OthersStay(pin);
    }

    /** One path fewer on its pin, and one fewer that wants to drive it if this one did. */
    twostate lemma Gone(path: Path)
      requires path in old(paths) && paths == old(paths) - {path}
      requires forall p: Path | p in old(paths) :: p.output == old(p.output)
      ensures |On(path.pin)| == old(|On(path.pin)|) - 1 >= 0
      ensures |Wanting(path.pin)| == old(|Wanting(path.pin)|) - (if path.output then 1 else 0) >= 0
    {
      var pin := path.pin;
      assert path in old(On(pin)) && On(pin) == old(On(pin)) - {path};
      if path.output {
        assert path in old(Wanting(pin)) && Wanting(pin) == old(Wanting(pin)) - {path};
      } else {
        assert Wanting(pin) == old(Wanting(pin));
      }
    }

    /** Changes whether a path wants to drive its pin: the pin is an output from then on exactly if some path does. */
    method SetDirection(path: Path, out: bool, works: bool) returns (err: Error)
      requires Valid() && path in paths
      modifies path`output, this`broken, pins
      ensures Valid() && path.output == out
      ensures err == if works || out == old(path.output) then Done else Failed
      ensures out != old(path.output) ==> pins[path.pin].driving == (Wanting(path.pin) != {})
      ensures out != old(path.output) ==> broken == if works then old(broken) - {path.pin} else old(broken) + {path.pin}
      ensures out != old(path.output) && works ==> pins[path.pin].turnedOut == pins[path.pin].driving
      ensures out == old(path.output) ==> pins[..] == old(pins[..]) && broken == old(broken)
      ensures pins[path.pin] == old(pins[path.pin]).(outputCount := pins[path.pin].outputCount,
                driving := pins[path.pin].driving, turnedOut := pins[path.pin].turnedOut)
      ensures forall q | 0 <= q < pins.Length && q != path.pin :: pins[q] == old(pins[q])
    {
      if out == path.output { return Done; }
      var pin := path.pin;
      assert PinValid(pin) && path in On(pin) && (path.output ==> path in Wanting(pin));
      var s := pins[pin];
      if out {
        s := s.(outputCount := s.outputCount + 1, driving := true);
      } else if s.outputCount > 0 {
        s := s.(outputCount := s.outputCount - 1);
      }
      var drive := s.outputCount > 0;
      if !drive { s := s.(driving := false); }
      pins[pin] := s;
      path.output := out;
      Configure(pin, false, drive, works);
      err := if works then Done else Failed;
      assert On(pin) == old(On(pin));
      assert Wanting(pin) == if out then old(Wanting(pin)) + {path} else old(Wanting(pin)) - {path};
      assert pins[pin].outputCount == |Wanting(pin)| && pins[pin].driving == (pins[pin].outputCount > 0);
      OthersStay(pin);
    }
  }
}
