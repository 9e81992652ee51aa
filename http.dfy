/**
 * The parts of `net/http` the filter touches: a header (or query) map from
 * a name to its list of values, and the inbound request that carries one of
 * each. Names are used exactly as given; MIME key canonicalisation is not
 * modelled.
 */
module Http {

  type Header = map<string, seq<string>>

  /** `Header.Get` (and `url.Values.Get`): the first value for the name, or "" when there is none. */
  function Get(h: Header, name: string): (v: string)
    ensures name in h && h[name] != [] ==> v == h[name][0]
    ensures name !in h || h[name] == [] ==> v == ""
  {
    if name in h && h[name] != [] then h[name][0] else ""
  }

  /** `Header.Add`: appends a value to the name's list; other names are untouched. */
  function Add(h: Header, name: string, value: string): (r: Header)
    ensures r.Keys == h.Keys + {name}
    ensures r[name] == (if name in h then h[name] else []) + [value]
    ensures forall k :: k in h && k != name ==> r[k] == h[k]
  {
    h[name := (if name in h then h[name] else []) + [value]]
  }

  /** `Header.Del`: removes the name and all its values; other names are untouched. */
  function Del(h: Header, name: string): (r: Header)
    ensures r.Keys == h.Keys - {name}
    ensures forall k :: k in r ==> r[k] == h[k]
  {
    h - {name}
  }

  /** An inbound `*http.Request`: its header map, changed in place, and its parsed URL query. */
  class Request {
    var header: Header
    var query: Header

    constructor (header: Header, query: Header)
      ensures this.header == header && this.query == query
    {
      this.header := header;
      this.query := query;
    }
  }
}
