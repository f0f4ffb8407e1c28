/** The parts of the candidate's master profile that the generator and the PDF header
    read. A missing or empty text field is the empty string, which JavaScript treats as
    falsy. */
module Profile {

  /** `master.personal`. */
  datatype Personal = Personal(
    firstName: string,
    lastName: string,
    location: string,
    suffix: string,
    github: string,
    linkedin: string,
    email: string,
    phone: string)

  /** The parsed master profile together with its two serialisations, `JSON.stringify(m)`
      and `JSON.stringify(m, null, 2)`, which are taken as given. */
  datatype Master = Master(personal: Personal, compactJson: string, prettyJson: string)
}
