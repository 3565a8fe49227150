/** The two scripts side by side. */
module Agreement {
  import opened Bytes
  import opened Serial
  import opened Protocol
  import opened Session
  import Gls29ee512
  import Writer

  /** The writer script and the programmer script agree: `writer.py` with
      and without `--verify-only` does on the link and reports exactly what
      `gls29ee512.py verify` and `gls29ee512.py write` do, and leaves the
      file as it found it. */
  lemma AgreesWithProgrammer(verifyOnly: bool, file: File, device: seq<Arrival>, deadline: nat)
    ensures var command := if verifyOnly then Gls29ee512.VerifyImage else Gls29ee512.WriteImage;
      var r := Writer.Program(verifyOnly, file, device, deadline);
      var f := Gls29ee512.Program(command, file, device, deadline);
      r.exit == f.exit && r.trace == f.trace && f.file == file
  {
    var command := if verifyOnly then Gls29ee512.VerifyImage else Gls29ee512.WriteImage;
    if file.Present? && |file.content| == ROM_SIZE {
      assert Writer.WriterPasses(verifyOnly, file.content) == Gls29ee512.ImagePasses(command, file.content);
      Writer.SweepsOverImage(verifyOnly, file, device, deadline);
      Gls29ee512.OpensLink(command, file, device, deadline);
    } else {
      Gls29ee512.ImageGate(command, file, device, deadline);
      Writer.FileGate(verifyOnly, file, device, deadline);
    }
  }
}
