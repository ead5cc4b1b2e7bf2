/** Each call of the driver is one step of the interleaving model. */
module DriverSteps {
  import opened Bytes
  import opened Lines
  import opened Positions
  import opened CommandSeek
  import opened Device
  import opened Sessions

  // What one call meets, next to what a read can deliver: `lock` is for the read's lock, `copied` for the
  // ioctl's copy_from_user.
  datatype Outcomes = Outcomes(write: WriteFaults, lock: bool, copied: bool)

  // The arguments fit the C types.
  predicate Fits(call: Call) {
    match call
    case Open(_) => true
    case Write(_) => true
    case Read(_, count, _) => count < TWO_64
    case Llseek(_, offset, _) => -TWO_63 <= offset < TWO_63
    case Ioctl(_, k, o) => k < 0x1_0000_0000 && o < 0x1_0000_0000
  }

  // The model knows the device's stream and this file's position.
  ghost predicate Shows(s: System, dev: AesdDevice, h: Handle, file: File)
    reads dev, file
  {
    s.stream == dev.stream && h in s.pos && s.pos[h] == file.fPos
  }

  /** A device just loaded and a file just opened on any device are what the model starts from. */
  method Load() returns (dev: AesdDevice)
    ensures dev.Valid() && fresh(dev.Repr()) && dev.stream == System([], map[]).stream
  {
    dev := new AesdDevice.Init();
  }

  method OpenFile(dev: AesdDevice, ghost h: Handle, ghost s: System) returns (file: File)
    requires dev.Valid() && s.stream == dev.stream
    ensures fresh(file) && Shows(s.Step(Open(h)), dev, h, file)
    ensures forall other :: other in s.pos && other != h ==> s.Step(Open(h)).pos[other] == s.pos[other]
  {
    file := new File.Open();
  }

  /** Performing a call on an open file, whatever it meets, takes one step of the model or none: none if a
      read is interrupted or an ioctl cannot fetch its argument, the step of the bytes accepted for a write
      whose allocation fails, and in all other cases the step of the call itself. */
  method Perform(dev: AesdDevice, ghost h: Handle, file: File, call: Call, faults: Outcomes, ghost s: System)
    returns (ret: int, data: seq<Byte>, ghost done: seq<Call>)
    requires dev.Valid() && Shows(s, dev, h, file) && Fits(call)
    requires !call.Open? && (call.Write? || call.h == h)
    modifies dev.Repr(), file
    ensures dev.Valid() && Shows(s.Run(done), dev, h, file)
    ensures ret >= 0 ==> done == [call]
    ensures call.Write? ==> |done| == 1 && done[0].Write? && done[0].bytes <= call.bytes
    ensures call.Read? ==> done == if faults.lock then [call] else []
    ensures call.Read? ==> (ret >= 0 <==> faults.lock && !s.Fails(h, call.count, call.arrives))
    ensures call.Read? && ret >= 0 ==> data == s.Got(h, call.count, call.arrives)
    ensures call.Llseek? ==> done == [call]
    ensures call.Ioctl? ==> done == if faults.copied then [call] else []
  {
    hide AesdDevice.Valid, Visible, CommandStart, InCommand, Accepts, Target, Copied, ReadStop;
    done, data := [call], [];
    if call.Write? {
      ghost var taken;
      ret, taken := dev.Write(call.bytes, faults.write);
      done := [Write(call.bytes[..taken])];
      assert call.bytes[..|call.bytes|] == call.bytes;
    } else if call.Read? {
      var ubuf := new Byte[call.count];
      ghost var before := ubuf[..];
      ret := dev.Read(file, ubuf, call.count, ReadFaults(faults.lock, call.arrives));
      if ret >= 0 {
        data := ubuf[..ret];
        if ret > 0 {
          CopiedFront(ubuf[..], before, dev.Data(), s.pos[h], ret);
        }
      } else if !faults.lock {
        done := [];
      }
    } else if call.Llseek? {
      ret := dev.Llseek(file, call.offset, call.whence);
    } else {
      ret := dev.Ioctl(file, IOCSEEKTO, faults.copied, call.k, call.o);
      if !faults.copied {
        done := [];
      }
    }
    if done != [] {
      assert done[1..] == [] && s.Run(done) == s.Step(done[0]);
    }
  }
}
