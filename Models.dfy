/** The records of the application: a location row, a position in its storage shape
    (location as an id) and in its wire shape (location as a name), and the field
    rules the data annotations of the storage record declare. */
module Models {
  import opened Outcomes

  /** A row of the Locations table. */
  datatype Location = Location(locationId: int, locationName: Option<string>)

  /** A row of the OpenPositions table; `positionId` is its key. */
  datatype OpenPosition = OpenPosition(
    positionId: int,
    roleName: Option<string>,
    domain: Option<string>,
    jobDescription: Option<string>,
    locationId: int,
    reqSkills: Option<string>,
    educationalQual: Option<string>,
    experience: Option<int>)

  /** The wire shape of a position: the location is carried by name. */
  datatype OpenPositionDto = OpenPositionDto(
    positionId: int,
    roleName: Option<string>,
    domain: Option<string>,
    jobDescription: Option<string>,
    location: Option<string>,
    reqSkills: Option<string>,
    educationalQual: Option<string>,
    experience: Option<int>)

  /** The white-space characters of the ASCII range. */
  predicate IsWhiteSpace(c: char) {
    c == ' ' || c == '\t' || c == '\n' || c == '\r' || c == '\U{0B}' || c == '\U{0C}'
  }

  /** Empty or made only of white space. */
  predicate Blank(s: string) {
    forall i :: 0 <= i < |s| ==> IsWhiteSpace(s[i])
  }

  /** [Required] on a string: present and not blank. */
  predicate Required(s: Option<string>) {
    s.Some? && !Blank(s.value)
  }

  /** [MinLength(n)] on a string: an absent value passes. */
  predicate MinLength(s: Option<string>, n: nat) {
    s.None? || |s.value| >= n
  }

  /** [Range(lo, hi)] on an optional integer: an absent value passes, bounds inclusive. */
  predicate InRange(x: Option<int>, lo: int, hi: int) {
    x.None? || lo <= x.value <= hi
  }

  /** The rules the annotations of OpenPosition declare, field by field. */
  predicate Valid(p: OpenPosition)
    ensures Valid(p) ==> p.roleName.Some? && |p.roleName.value| >= 5 && !Blank(p.roleName.value)
    ensures Valid(p) ==> p.domain.Some? && p.reqSkills.Some? && p.educationalQual.Some?
    ensures Valid(p) && p.jobDescription.Some? ==> |p.jobDescription.value| >= 15
    ensures Valid(p) && p.experience.Some? ==> 1 <= p.experience.value <= 50
  {
    && Required(p.roleName) && MinLength(p.roleName, 5)
    && Required(p.domain)
    && MinLength(p.jobDescription, 15)
    && Required(p.reqSkills)
    && Required(p.educationalQual)
    && InRange(p.experience, 1, 50)
  }

  /** [Key] on PositionId: no two rows of the table share a key. */
  predicate KeysUnique(ps: seq<OpenPosition>)
    ensures KeysUnique(ps) ==>
              forall i, j :: 0 <= i < |ps| && 0 <= j < |ps| && ps[i].positionId == ps[j].positionId ==> i == j
    ensures |ps| <= 1 ==> KeysUnique(ps)
  {
    forall i, j :: 0 <= i < j < |ps| ==> ps[i].positionId != ps[j].positionId
  }

  /** The rules do not look at the key or the location id, so neither the key the
      database assigns nor the translation of the location changes validity. */
  lemma ValidIgnoresKeyAndLocation(p: OpenPosition, key: int, locationId: int)
    ensures Valid(p.(positionId := key, locationId := locationId)) == Valid(p)
  {
  }

  /** Range(1, 50) on Experience, inclusive: a record with an experience of `x` years
      is valid exactly when it would be valid without one and 1 <= x <= 50. */
  lemma ValidExperienceInRange(p: OpenPosition, x: int)
    ensures Valid(p.(experience := Some(x))) <==> Valid(p.(experience := None)) && 1 <= x <= 50
  {
  }

  /** MinLength(15) on JobDescription: a record whose job description is `s` is valid
      exactly when it would be valid without one and `s` has at least 15 characters. */
  lemma ValidJobDescriptionLength(p: OpenPosition, s: string)
    ensures Valid(p.(jobDescription := Some(s))) <==> Valid(p.(jobDescription := None)) && |s| >= 15
  {
  }

  /** Required and MinLength(5) on RoleName: a record whose role name is `s` is valid
      exactly when it would be valid with some acceptable role name, `s` has at least
      five characters and `s` is not all white space; a null role name is never valid. */
  lemma ValidRoleName(p: OpenPosition, s: string)
    ensures Valid(p.(roleName := Some(s))) <==> Valid(p.(roleName := Some("Developer"))) && |s| >= 5 && !Blank(s)
    ensures !Valid(p.(roleName := None))
  {
    assert !Blank("Developer") by { assert !IsWhiteSpace("Developer"[0]); }
  }

  /** Required on Domain, ReqSkills and EducationalQual: a null or blank value in any
      of them makes every record invalid. */
  lemma InvalidWhenRequiredFieldMissing(p: OpenPosition)
    requires p.domain.None? || p.reqSkills.None? || p.educationalQual.None?
          || (p.domain.Some? && Blank(p.domain.value))
          || (p.reqSkills.Some? && Blank(p.reqSkills.value))
          || (p.educationalQual.Some? && Blank(p.educationalQual.value))
    ensures !Valid(p)
  {
  }
}
