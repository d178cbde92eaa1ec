/** The component registry: one entry a name, created on first use. */
module Registry {
  import opened Prelude

  type ClassId = nat

  /** Compiled templates, by identity. */
  type Tpl = nat

  datatype Entry = Entry(
    html: string,
    tpl: Option<Tpl>,
    logic: Option<ClassId>,
    logicError: Option<string>,
    jsStreaming: bool,
    htmlStreaming: bool,
    ver: nat,
    fetched: bool,
    jsSeq: nat)

  const FRESH: Entry := Entry("", None, None, None, false, false, 0, false, 0)

  type Entries = map<string, Entry>

  /** `registry.get`, as far as readers can tell. */
  function At(es: Entries, name: string): Entry {
    if name in es then es[name] else FRESH
  }

  predicate IsStreaming(e: Entry) {
    e.htmlStreaming || e.jsStreaming
  }
}
