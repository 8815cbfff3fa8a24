/**
 * The validating constructor of a geo query: a centroid (latitude, longitude)
 * in degrees and a search radius in kilometres.
 *
 * The Java constructor takes a boxed `Float` radius, so the radius may be
 * null; it is an `Option<real>` here. The validity tests on the coordinates
 * belong to a utility class whose bodies are not part of this model, so they
 * are parameters of the constructor.
 */
module GeoQueries {
  import opened Wrappers

  /** The smallest radius accepted: the test against it is a strict `<`. */
  const MinimumRangeInKm: real := 0.0

  /** An immutable, validated geo query. */
  datatype GeoQuery = GeoQuery(centroidLatitude: real, centroidLongitude: real, rangeInKm: real)
  {
    function CentroidLatitude(): real { centroidLatitude }

    function CentroidLongitude(): real { centroidLongitude }

    function RangeInKm(): real { rangeInKm }
  }

  /** The message of each IllegalArgumentException the constructor can raise. */
  datatype Reason =
    | MissingRange                                      // "please specify rangeInKilometers"
    | RangeNotPositive                                  // "range must be positive"
    | BadLatitudeOrLongitude(latitude: real, longitude: real)  // "bad latitude or longitude: ..."

  /** The exception a failed construction ends in. */
  datatype ConstructionFailure =
    | NullPointerException
    | IllegalArgumentException(reason: Reason)

  /** What a successfully constructed query satisfies. */
  ghost predicate IsValidQuery(q: GeoQuery, isValidLatitude: real -> bool, isValidLongitude: real -> bool)
  {
    && q.rangeInKm >= MinimumRangeInKm
    && isValidLatitude(q.centroidLatitude)
    && isValidLongitude(q.centroidLongitude)
  }

  /**
   * The constructor as written. Assigning the boxed radius to the primitive
   * field unboxes it before the null test, so a null radius raises a
   * NullPointerException and the "please specify" branch is never reached.
   * The radius is checked before the coordinates.
   */
  function Construct(
    centroidLatitude: real, centroidLongitude: real, rangeInKm: Option<real>,
    isValidLatitude: real -> bool, isValidLongitude: real -> bool
  ): (r: Result<GeoQuery, ConstructionFailure>)
    ensures r.Success? <==>
      rangeInKm.Some? && rangeInKm.value >= 0.0
      && isValidLatitude(centroidLatitude) && isValidLongitude(centroidLongitude)
    ensures r.Success? ==>
      && r.value.CentroidLatitude() == centroidLatitude
      && r.value.CentroidLongitude() == centroidLongitude
      && r.value.RangeInKm() == rangeInKm.value
      && IsValidQuery(r.value, isValidLatitude, isValidLongitude)
    ensures r.Failure? ==> r.error != IllegalArgumentException(MissingRange)
  {
    match rangeInKm
    case None => Failure(NullPointerException)
    case Some(range) =>
      if range < MinimumRangeInKm then
        Failure(IllegalArgumentException(RangeNotPositive))
      else if !isValidLatitude(centroidLatitude) || !isValidLongitude(centroidLongitude) then
        Failure(IllegalArgumentException(BadLatitudeOrLongitude(centroidLatitude, centroidLongitude)))
      else
        Success(GeoQuery(centroidLatitude, centroidLongitude, range))
  }

  /**
   * The constructor as its null check evidently intends: a missing radius is
   * reported as an illegal argument. Otherwise identical to Construct.
   */
  function ConstructIntended(
    centroidLatitude: real, centroidLongitude: real, rangeInKm: Option<real>,
    isValidLatitude: real -> bool, isValidLongitude: real -> bool
  ): (r: Result<GeoQuery, ConstructionFailure>)
    ensures rangeInKm.None? ==> r == Failure(IllegalArgumentException(MissingRange))
    ensures rangeInKm.Some? ==>
      r == Construct(centroidLatitude, centroidLongitude, rangeInKm, isValidLatitude, isValidLongitude)
    ensures r.Failure? ==> r.error.IllegalArgumentException?
  {
    if rangeInKm.None? then
      Failure(IllegalArgumentException(MissingRange))
    else
      Construct(centroidLatitude, centroidLongitude, rangeInKm, isValidLatitude, isValidLongitude)
  }

  /** A null radius always fails, and with a NullPointerException, whatever the coordinates. */
  lemma NullRangeRaisesNullPointer(
    centroidLatitude: real, centroidLongitude: real,
    isValidLatitude: real -> bool, isValidLongitude: real -> bool)
    ensures Construct(centroidLatitude, centroidLongitude, None, isValidLatitude, isValidLongitude)
      == Failure(NullPointerException)
    ensures ConstructIntended(centroidLatitude, centroidLongitude, None, isValidLatitude, isValidLongitude)
      != Construct(centroidLatitude, centroidLongitude, None, isValidLatitude, isValidLongitude)
  {
  }

  /** A radius below zero is rejected with "range must be positive", whatever the coordinates. */
  lemma NegativeRangeRejected(
    centroidLatitude: real, centroidLongitude: real, rangeInKm: real,
    isValidLatitude: real -> bool, isValidLongitude: real -> bool)
    requires rangeInKm < 0.0
    ensures Construct(centroidLatitude, centroidLongitude, Some(rangeInKm), isValidLatitude, isValidLongitude)
      == Failure(IllegalArgumentException(RangeNotPositive))
  {
  }

  /** A radius of exactly zero is accepted when the coordinates are valid. */
  lemma ZeroRangeAccepted(
    centroidLatitude: real, centroidLongitude: real,
    isValidLatitude: real -> bool, isValidLongitude: real -> bool)
    requires isValidLatitude(centroidLatitude) && isValidLongitude(centroidLongitude)
    ensures Construct(centroidLatitude, centroidLongitude, Some(0.0), isValidLatitude, isValidLongitude)
      == Success(GeoQuery(centroidLatitude, centroidLongitude, 0.0))
  {
  }

  /** With a present, non-negative radius, a bad coordinate is reported with both coordinates. */
  lemma BadCoordinatesRejected(
    centroidLatitude: real, centroidLongitude: real, rangeInKm: real,
    isValidLatitude: real -> bool, isValidLongitude: real -> bool)
    requires rangeInKm >= 0.0
    requires !isValidLatitude(centroidLatitude) || !isValidLongitude(centroidLongitude)
    ensures Construct(centroidLatitude, centroidLongitude, Some(rangeInKm), isValidLatitude, isValidLongitude)
      == Failure(IllegalArgumentException(BadLatitudeOrLongitude(centroidLatitude, centroidLongitude)))
  {
  }

  /**
   * The radius is checked before the coordinates: any failure on an input
   * whose radius is null or negative is the radius failure, never the
   * coordinate failure.
   */
  lemma RangeCheckedBeforeCoordinates(
    centroidLatitude: real, centroidLongitude: real, rangeInKm: Option<real>,
    isValidLatitude: real -> bool, isValidLongitude: real -> bool)
    requires rangeInKm.None? || rangeInKm.value < 0.0
    ensures
      var r := Construct(centroidLatitude, centroidLongitude, rangeInKm, isValidLatitude, isValidLongitude);
      r.Failure? && !(r.error.IllegalArgumentException? && r.error.reason.BadLatitudeOrLongitude?)
  {
  }

  /**
   * Every valid query is what the constructor builds from its own getters:
   * construction and the getters are inverse, with no swap of the coordinates.
   */
  lemma ConstructFromGetters(q: GeoQuery, isValidLatitude: real -> bool, isValidLongitude: real -> bool)
    requires IsValidQuery(q, isValidLatitude, isValidLongitude)
    ensures Construct(q.CentroidLatitude(), q.CentroidLongitude(), Some(q.RangeInKm()),
                      isValidLatitude, isValidLongitude) == Success(q)
  {
  }
}
