/** The experience list of the profile data: the contract type read from a free-form
    string, and each master entry mapped to an experience with its skills looked up and
    its period built. Date parsing is left abstract: a date is the string it was built
    from, or the clock reading `now` passed in. */
module Experience {
  import opened Outcomes
  import opened Text
  import opened Skills

  /** The contract type enumeration, with members taken to be distinct, truthy string
      constants. */
  datatype ContractType = FullTime | PartTime | SelfEmployed | Freelance | Contract | Internship

  /** The key each contract type is written as in the master profile. */
  function ContractName(c: ContractType): string {
    match c
    case FullTime => "Full-time"
    case PartTime => "Part-time"
    case SelfEmployed => "Self-employed"
    case Freelance => "Freelance"
    case Contract => "Contract"
    case Internship => "Internship"
  }

  /** The six keys of the contract map. */
  predicate IsContractName(s: string) {
    s == "Full-time" || s == "Part-time" || s == "Self-employed" || s == "Freelance" || s == "Contract" || s == "Internship"
  }

  // ---------------------------------------------------------------------------------
  // getContractType as written
  // ---------------------------------------------------------------------------------

  /** The property names every object literal inherits from `Object.prototype`: reading
      one of them from the contract map yields a function or an object, never `undefined`. */
  predicate InheritedKey(s: string) {
    s == "constructor" || s == "toString" || s == "toLocaleString" || s == "valueOf"
    || s == "hasOwnProperty" || s == "isPrototypeOf" || s == "propertyIsEnumerable"
    || s == "__proto__" || s == "__defineGetter__" || s == "__defineSetter__"
    || s == "__lookupGetter__" || s == "__lookupSetter__"
  }

  /** What `contractMap[contract] || ContractType.Freelance` evaluates to: a contract type,
      or the inherited property read off the map. */
  datatype Lookup = Member(value: ContractType) | Inherited(name: string)

  /** `getContractType` as written: a plain object as the map, so an inherited property
      is found and, being truthy, returned past the `||`. */
  function GetContractTypeAsWritten(contract: string): (r: Lookup)
    ensures r.Inherited? <==> InheritedKey(contract)
    ensures r.Inherited? ==> r.name == contract
    ensures IsContractName(contract) ==> r == Member(GetContractType(contract))
  {
    if IsContractName(contract) then Member(GetContractType(contract))
    else if InheritedKey(contract) then Inherited(contract)
    else Member(Freelance)
  }

  /** The contract string `constructor` gets the map's inherited `Object` constructor back,
      which is no contract type at all. */
  lemma InheritedKeyEscapes()
    ensures !GetContractTypeAsWritten("constructor").Member?
    ensures !GetContractTypeAsWritten("toString").Member?
  {
  }

  // ---------------------------------------------------------------------------------
  // getContractType as intended
  // ---------------------------------------------------------------------------------

  /** `getContractType` as intended: each of the six exact keys gives its constant and any
      other string, including case variants and inherited property names, `Freelance`. */
  function GetContractType(contract: string): (r: ContractType)
    ensures contract == "Full-time" ==> r == FullTime
    ensures contract == "Part-time" ==> r == PartTime
    ensures contract == "Self-employed" ==> r == SelfEmployed
    ensures contract == "Freelance" ==> r == Freelance
    ensures contract == "Contract" ==> r == Contract
    ensures contract == "Internship" ==> r == Internship
    ensures !IsContractName(contract) ==> r == Freelance
  {
    if contract == "Full-time" then FullTime
    else if contract == "Part-time" then PartTime
    else if contract == "Self-employed" then SelfEmployed
    else if contract == "Contract" then Contract
    else if contract == "Internship" then Internship
    else Freelance
  }

  /** Each constant is read back from its own key, and a constant other than `Freelance`
      comes only from its own key. */
  lemma ContractRoundTrip(c: ContractType, s: string)
    ensures GetContractType(ContractName(c)) == c
    ensures GetContractType(s) == c && c != Freelance ==> s == ContractName(c)
  {
  }

  /** Lower-case `full-time` is not a key and falls back to `Freelance`. */
  lemma CaseVariantIsFreelance()
    ensures GetContractType("full-time") == Freelance
  {
    assert "full-time"[0] != "Full-time"[0];
    assert !IsContractName("full-time");
  }

  /** Apart from the inherited property names, the code as written is the intended
      lookup. */
  lemma AsWrittenAgrees(contract: string)
    requires !InheritedKey(contract)
    ensures GetContractTypeAsWritten(contract) == Member(GetContractType(contract))
  {
  }

  // ---------------------------------------------------------------------------------
  // items
  // ---------------------------------------------------------------------------------

  /** A point in time: a parsed date string, or the clock reading at load time. */
  datatype Instant = Parsed(text: string) | Clock(millis: int)

  datatype Period = Period(from: Instant, to: Option<Instant>)

  /** The fields copied unchanged from the master entry. */
  datatype Info = Info(slug: string, name: string, company: string, kind: string, location: string,
                       color: string, logo: string, shortDescription: string, description: string,
                       links: seq<string>)

  /** An experience as the master profile lists it; a missing date is `""`. */
  datatype RawExperience = RawExperience(info: Info, contract: string, skills: seq<string>,
                                         startDate: string, endDate: string)

  datatype Entry = Entry(info: Info, contract: ContractType, skills: seq<Skill>, period: Period)

  /** One master entry mapped: the copied fields, the contract type, its skills looked up
      by slug, and its period, which starts now when there is no start date and is open
      when there is no end date. */
  function Convert(skills: seq<Skill>, now: int, exp: RawExperience): (r: Entry)
    ensures r.info == exp.info
    ensures r.contract == GetContractType(exp.contract)
    ensures r.period.to.None? <==> !Truthy(exp.endDate)
    ensures r.period.to.Some? ==> r.period.to.value == Parsed(exp.endDate)
    ensures r.period.from == if Truthy(exp.startDate) then Parsed(exp.startDate) else Clock(now)
    ensures forall x :: x in r.skills <==> x in skills && (|exp.skills| == 0 || x.slug in exp.skills)
  {
    Entry(exp.info, GetContractType(exp.contract), GetSkillsBySlug(skills, exp.skills),
          Period(if Truthy(exp.startDate) then Parsed(exp.startDate) else Clock(now),
                 if Truthy(exp.endDate) then Some(Parsed(exp.endDate)) else None))
  }

  /** `items`: every master entry mapped, in master order. */
  function Experiences(skills: seq<Skill>, now: int, raws: seq<RawExperience>): (r: seq<Entry>)
    ensures |r| == |raws|
    ensures forall i :: 0 <= i < |r| ==> r[i] == Convert(skills, now, raws[i])
  {
    seq(|raws|, i requires 0 <= i < |raws| => Convert(skills, now, raws[i]))
  }

  /** The list keeps the master order and content: entry `i` carries the fields of master
      entry `i`, and an entry listing no skill gets every skill, in catalogue order. */
  lemma ExperiencesFollowMaster(skills: seq<Skill>, now: int, raws: seq<RawExperience>, i: nat)
    requires i < |raws|
    ensures i < |Experiences(skills, now, raws)|
    ensures Experiences(skills, now, raws)[i].info == raws[i].info
    ensures |raws[i].skills| == 0 ==> Experiences(skills, now, raws)[i].skills == skills
    ensures Experiences(skills, now, raws)[i].period.to.None? <==> raws[i].endDate == ""
  {
    GetSkillsNoSlugs(skills);
  }
}
