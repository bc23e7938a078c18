/** The Workday Web Services namespace shared by the generator and the runtime. */
module WwsDefaults {
  import opened XmlTree

  const Namespace: string := "urn:com.workday/bsvc"

  /** `wd + local`: a name in the Workday namespace. */
  function Wd(local: string): (n: Name)
    ensures n.ns == Namespace && n.local == local
  {
    Name(Namespace, local)
  }
}
