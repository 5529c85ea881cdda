/** The checks every `commit` makes between storing the content and
    writing the index entry: the expected integrity first, then the
    expected size. `Put`/`AsyncPut` report failures as `IntegrityError` and
    `SizeError`; the linkers report them as `IntegrityCheckError` and
    `SizeMismatch`, with the values involved. */
module Commit {
  import opened Wrappers
  import opened Bytes
  import opened Sri
  import opened Errors
  import opened Options

  datatype ErrorStyle = PutErrors | LinkErrors

  /** The options are accepted for a write whose computed integrity is
      `computed` and whose byte count is `count`. */
  predicate Accepts(opts: WriteOpts, computed: Integrity, count: nat) {
    (opts.sri.None? || Matches(opts.sri.value, computed)) && (opts.size.None? || opts.size.value == count)
  }

  /** The checks of `commit`: an expected integrity the computed one does
      not match is rejected before the size is looked at; on acceptance the
      options come back with the integrity filled in from `computed` when
      none was expected, and otherwise unchanged. */
  function Checked(opts: WriteOpts, computed: Integrity, count: nat, style: ErrorStyle): (r: Result<WriteOpts>)
    ensures r.Ok? <==> Accepts(opts, computed, count)
    ensures r.Ok? ==> r.value.sri == Some(opts.sri.GetOr(computed))
    ensures r.Ok? ==> r.value.(sri := opts.sri) == opts
    ensures opts.sri.Some? && !Matches(opts.sri.value, computed) ==>
      r == Err(if style == PutErrors then IntegrityError else IntegrityCheckError(opts.sri.value, computed))
    ensures (opts.sri.None? || Matches(opts.sri.value, computed)) && opts.size.Some? && opts.size.value != count ==>
      r == Err(if style == PutErrors then SizeError else SizeMismatch(opts.size.value, count))
  {
    if opts.sri.Some? && !Matches(opts.sri.value, computed) then
      Err(if style == PutErrors then IntegrityError else IntegrityCheckError(opts.sri.value, computed))
    else
      var filled := opts.(sri := Some(opts.sri.GetOr(computed)));
      if opts.size.Some? && opts.size.value != count then
        Err(if style == PutErrors then SizeError else SizeMismatch(opts.size.value, count))
      else Ok(filled)
  }

  /** The integrity the accepted options carry verifies the written data:
      whatever `commit` records in the index passes `check` on the bytes
      that were hashed. */
  lemma AcceptedIntegrityChecks(opts: WriteOpts, data: seq<byte>, a: Algorithm, style: ErrorStyle)
    requires Checked(opts, Compute(data, a), |data|, style).Ok?
    ensures Check(Checked(opts, Compute(data, a), |data|, style).value.sri.value, data) == Some(a)
  {
    var computed := Compute(data, a);
    if opts.sri.Some? {
      MatchesSameAlgorithm(opts.sri.value, computed);
    } else {
      CheckComputed(data, a);
    }
  }

  /** Options with no expectations accept every write, and the only change
      they undergo is the recorded integrity. */
  lemma NoExpectationsAccept(opts: WriteOpts, computed: Integrity, count: nat, style: ErrorStyle)
    requires opts.sri.None? && opts.size.None?
    ensures Checked(opts, computed, count, style) == Ok(opts.(sri := Some(computed)))
  {
  }
}
