/** The values `ChatManager` passes around: chat messages as the agent
    framework returns them, the documents it reads, and the exceptions its
    code can raise. */
module ChatTypes {
  import opened Wrappers

  /** One chat-history entry, a Python dict. A key the dict lacks is `None`. */
  datatype Message = Message(role: Option<string>, content: Option<string>)

  /** An exception escaping a `ChatManager` method. */
  datatype Error =
    | KeyError(key: string)          // `msg["role"]` or `msg["content"]` on a dict without that key
    | AttributeError(name: string)   // `Config.USER_IMAGE`, which `Config` never defines

  /** One markdown file: its file name and its text. */
  datatype Doc = Doc(name: string, content: string)

  /** The loaded documents, by category, in the order they were listed. */
  datatype Documents = Documents(personal: seq<Doc>, org: seq<Doc>)

  /** The agent answering organisation questions. */
  const GraphAgentName: string := "GraphRAG_Agent"
  /** The agent answering from personal notes. */
  const TextAgentName: string := "TextRAG_Agent"

  /** The role belongs to one of the two answering agents. */
  predicate IsAgentRole(role: string) {
    role == TextAgentName || role == GraphAgentName
  }
}
