/** The failure codes the library hands out, taken together: the code of an
    error tells which failure it reports. */
module FailureCodes {
  import opened Errors
  import Handler
  import Addr

  /** An error reporting that interface enumeration failed, whatever the
      cause it quotes. */
  predicate IsEnumerationError(e: Error)
  {
    |e.Text()| >= |Addr.EnumerationPrefix| && e == Addr.EnumerationError(e.Text()[|Addr.EnumerationPrefix|..])
  }

  /** The errors the library constructs: a user exit, a read failure, no
      usable address, or a failed enumeration. */
  predicate LibraryError(e: Error)
  {
    e == Handler.UserExit || e == Handler.ReadFailure || e == Addr.NoNetwork || IsEnumerationError(e)
  }

  /** The four codes 0, 1, 95 and 96 are pairwise distinct, so among the
      library's errors the code alone identifies the kind of failure. */
  lemma CodeIdentifiesFailure(e: Error)
    requires LibraryError(e)
    ensures e.Code() == 0 <==> e == Handler.UserExit
    ensures e.Code() == 1 <==> e == Handler.ReadFailure
    ensures e.Code() == 95 <==> e == Addr.NoNetwork
    ensures e.Code() == 96 <==> IsEnumerationError(e)
  {
    if IsEnumerationError(e) {
      assert e.Code() == 96;
    }
  }

  /** Every enumeration failure, whatever its cause, is one of the
      library's errors with code 96. */
  lemma EnumerationErrorsAreLibraryErrors(reason: string)
    ensures IsEnumerationError(Addr.EnumerationError(reason))
    ensures LibraryError(Addr.EnumerationError(reason))
  {
    var e := Addr.EnumerationError(reason);
    assert e.Text()[|Addr.EnumerationPrefix|..] == reason;
  }
}
