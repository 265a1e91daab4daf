/** The constants of the `Config` class. */
module Config {

  /** `Config.ORG_KEYWORDS`: a prompt holding one of these (case-folded) is
      about the organisation. */
  const OrgKeywords: seq<string> :=
    ["org", "organization", "structure", "team", "manager", "lead", "report", "department", "chart"]

  /** `Config.TERMINATION_PHRASES`: replies holding one of these sound stuck. */
  const TerminationPhrases: seq<string> := [
    "I'm unable to provide",
    "I am sorry",
    "need more information",
    "please provide a question",
    "please clarify",
    "no relevant answer",
    "I apologize"
  ]
}
