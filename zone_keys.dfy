/**
 * Zone keys. A zone chosen from the dropdown is stored under its label with every `/`
 * replaced by `-`; a zone card shows its key with every `-` replaced by `/`.
 */
module ZoneKeys {

  /** `s.replace(/x/g, y)` for single characters. */
  function ReplaceAll(s: string, x: char, y: char): (r: string)
    ensures |r| == |s|
    ensures forall i :: 0 <= i < |s| ==> r[i] == (if s[i] == x then y else s[i])
  {
    seq(|s|, i requires 0 <= i < |s| => if s[i] == x then y else s[i])
  }

  /** The key `label.replace(/\//g, '-')` a new zone is stored under. */
  function Sanitise(zoneLabel: string): (key: string)
    ensures |key| == |zoneLabel| && '/' !in key
  {
    ReplaceAll(zoneLabel, '/', '-')
  }

  /** The name a zone card shows: `zone.replace(/-/g, '/')`. */
  function DisplayName(key: string): (name: string)
    ensures |name| == |key| && '-' !in name
  {
    ReplaceAll(key, '-', '/')
  }

  /** A card shows the label the zone was added with exactly when that label has no `-`. */
  lemma DisplayNameRecoversLabel(zoneLabel: string)
    ensures DisplayName(Sanitise(zoneLabel)) == zoneLabel <==> '-' !in zoneLabel
  {
    var shown := DisplayName(Sanitise(zoneLabel));
    if '-' in zoneLabel {
      var i :| 0 <= i < |zoneLabel| && zoneLabel[i] == '-';
      assert shown[i] == '/';
    } else {
      assert forall i :: 0 <= i < |zoneLabel| ==> shown[i] == zoneLabel[i];
    }
  }

  /** Two labels that differ only in `/` against `-` get the same key, e.g. "Etc/GMT-5" and "Etc-GMT/5". */
  lemma SanitiseCollides(a: string, b: string)
    requires |a| == |b|
    requires forall i :: 0 <= i < |a| ==> a[i] == b[i] || (a[i] in "/-" && b[i] in "/-")
    ensures Sanitise(a) == Sanitise(b)
  {
    assert forall i :: 0 <= i < |a| ==> Sanitise(a)[i] == Sanitise(b)[i];
  }
}
