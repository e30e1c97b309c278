/**
  The part of the iconv(3) library that the charset bridge relies on,
  as an abstract interface with an explicit contract.

  A converter descriptor is named by the pair of encoding names it was
  opened with. One call of iconv() on a descriptor and the remaining input
  is a Step: how many input bytes it consumed, the bytes it wrote into the
  caller's output buffer, and how it returned.
 */
module Iconv {

  /** Size of the output buffer handed to each iconv() call. */
  const BufferSize: nat := 1024

  /** The descriptor returned by a successful iconv_open(to, from). */
  datatype Converter = Converter(to: string, from: string)

  /** How one iconv() call returned. */
  datatype Status =
    | Converted    // a result other than (size_t)-1
    | OutputFull   // (size_t)-1 with errno == E2BIG
    | Failed       // (size_t)-1 with any other errno (EILSEQ, EINVAL, ...)

  datatype Step = Step(consumed: nat, output: string, status: Status)

  /** The signature of iconv() as the bridge uses it. */
  type StepFunction = (Converter, string) -> Step

  /**
    What is assumed of one iconv() call on a non-empty remaining input:
    it consumes no more than is left, writes no more than the buffer holds,
    and a call that neither failed nor left the buffer empty consumed at
    least one byte (the conversion loop relies on this to terminate).
   */
  predicate StepContract(input: string, st: Step)
  {
    && st.consumed <= |input|
    && |st.output| <= BufferSize
    && (st.status != Failed && st.output != [] ==> st.consumed > 0)
  }

  ghost predicate IconvContract(step: StepFunction)
  {
    forall cd: Converter, s: string :: s != [] ==> StepContract(s, step(cd, s))
  }
}
