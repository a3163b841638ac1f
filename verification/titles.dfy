/** The list-row title both presentation layers build from a key: a lock
    glyph (U+F023, a Nerd Font icon) and a space before the key of a
    SecureString parameter, the bare key otherwise. */
module Titles {
  import opened Results
  import opened Remote

  const LockMarker: string := "\U{F023} "

  function MarkedTitle(key: string, ptype: ParameterType): (t: string)
    ensures ptype == SecureString ==>
              |t| == |LockMarker| + |key| && t[..|LockMarker|] == LockMarker && t[|LockMarker|..] == key
    ensures ptype != SecureString ==> t == key
  {
    if ptype == SecureString then LockMarker + key else key
  }

  /** Reads the key back out of a title, given the parameter type; `None`
      when a SecureString title lacks the marker. */
  function TitleKey(title: string, ptype: ParameterType): Option<string>
  {
    if ptype != SecureString then Some(title)
    else if |LockMarker| <= |title| && title[..|LockMarker|] == LockMarker then Some(title[|LockMarker|..])
    else None
  }

  /** Round trip: the key is recoverable from its title and type. */
  lemma TitleKeyRoundTrip(key: string, ptype: ParameterType)
    ensures TitleKey(MarkedTitle(key, ptype), ptype) == Some(key)
  {
  }

  /** Among parameters of one type, titles coincide exactly when keys do. */
  lemma TitleInjective(k1: string, k2: string, ptype: ParameterType)
    ensures MarkedTitle(k1, ptype) == MarkedTitle(k2, ptype) <==> k1 == k2
  {
  }
}
