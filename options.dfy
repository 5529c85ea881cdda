/** The options a write carries from the caller to the index
    (`PutOpts`/`WriteOpts`) and the builder setters that fill them in. */
module Options {
  import opened Wrappers
  import opened Sri
  import opened Records

  datatype WriteOpts = WriteOpts(
    algorithm: Option<Algorithm>,
    sri: Option<Integrity>,
    size: Option<nat>,
    time: Option<nat>,
    metadata: Option<Json>)

  /** `PutOpts::new()`: nothing set. */
  function NewOpts(): (o: WriteOpts)
    ensures o.algorithm.None? && o.sri.None? && o.size.None? && o.time.None? && o.metadata.None?
  {
    WriteOpts(None, None, None, None, None)
  }

  function WithAlgorithm(o: WriteOpts, a: Algorithm): (r: WriteOpts)
    ensures r.algorithm == Some(a)
    ensures r.sri == o.sri && r.size == o.size && r.time == o.time && r.metadata == o.metadata
  {
    o.(algorithm := Some(a))
  }

  function WithSize(o: WriteOpts, size: nat): (r: WriteOpts)
    ensures r.size == Some(size)
    ensures r.algorithm == o.algorithm && r.sri == o.sri && r.time == o.time && r.metadata == o.metadata
  {
    o.(size := Some(size))
  }

  function WithMetadata(o: WriteOpts, metadata: Json): (r: WriteOpts)
    ensures r.metadata == Some(metadata)
    ensures r.algorithm == o.algorithm && r.sri == o.sri && r.size == o.size && r.time == o.time
  {
    o.(metadata := Some(metadata))
  }

  function WithTime(o: WriteOpts, time: nat): (r: WriteOpts)
    ensures r.time == Some(time)
    ensures r.algorithm == o.algorithm && r.sri == o.sri && r.size == o.size && r.metadata == o.metadata
  {
    o.(time := Some(time))
  }

  function WithIntegrity(o: WriteOpts, sri: Integrity): (r: WriteOpts)
    ensures r.sri == Some(sri)
    ensures r.algorithm == o.algorithm && r.size == o.size && r.time == o.time && r.metadata == o.metadata
  {
    o.(sri := Some(sri))
  }

  /** Setters of different fields commute, and setting a field twice keeps
      the second value. */
  lemma SettersCommute(o: WriteOpts, a: Algorithm, size: nat, n: nat, sri: Integrity)
    ensures WithSize(WithAlgorithm(o, a), size) == WithAlgorithm(WithSize(o, size), a)
    ensures WithIntegrity(WithSize(o, size), sri) == WithSize(WithIntegrity(o, sri), size)
    ensures WithSize(WithSize(o, n), size) == WithSize(o, size)
  {
  }
}
