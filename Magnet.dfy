/**
 * The magnet composer (`createMagnetUrl`): a BitTorrent magnet URI in the
 * BEP 9 format, carrying the info-hash verbatim, the display name and a fixed,
 * ordered list of five trackers, each value escaped with `encodeURIComponent`.
 */
module Magnet {
  import opened Common
  import opened JsStrings
  import opened UriComponent

  const MagnetPrefix: string := "magnet:?xt=urn:btih:"

  const UdpScheme: string := "udp://"

  /** The tracker list, in the order the URI lists them: five UDP announce URLs. */
  const TrackerList: seq<string> := [
    UdpScheme + "tracker.coppersurfer.tk:6969/announce",
    UdpScheme + "tracker.openbittorrent.com:6969/announce",
    UdpScheme + "tracker.opentrackr.org:1337/announce",
    UdpScheme + "exodus.desync.com:6969/announce",
    UdpScheme + "tracker.torrent.eu.org:451/announce"
  ]

  /** The shape `^[a-fA-F0-9]{40}$` of a hexadecimal info-hash. */
  predicate IsInfoHash(h: string) {
    |h| == 40 && forall i :: 0 <= i < |h| ==> IsHexDigit(h[i])
  }

  /** `trackers.map(encodeURIComponent)`. */
  function EncodeAll(ts: seq<string>): (vs: seq<string>)
    ensures |vs| == |ts|
    ensures forall k :: 0 <= k < |ts| ==> vs[k] == Encode(ts[k])
  {
    if ts == [] then [] else [Encode(ts[0])] + EncodeAll(ts[1..])
  }

  /** The `&tr=<value>` parameters for already-escaped values, joined. */
  function TrackerParams(vs: seq<string>): string {
    if vs == [] then "" else "&tr=" + vs[0] + TrackerParams(vs[1..])
  }

  /**
   * The magnet URI for a hash, a title and a tracker list: no URI for the
   * empty hash (the only falsy string), otherwise the `xt`, `dn` and `tr`
   * parameters in that order.
   */
  function MagnetUri(hash: string, title: string, trackers: seq<string>): (r: Option<string>)
    ensures r.None? <==> hash == ""
    ensures r.Some? ==> StartsWith(r.value, MagnetPrefix + hash + "&dn=")
  {
    if hash == "" then None
    else Some(MagnetPrefix + hash + "&dn=" + Encode(title) + TrackerParams(EncodeAll(trackers)))
  }

  /** `createMagnetUrl(hash, title)`: the magnet URI with the program's tracker list. */
  function CreateMagnetUrl(hash: string, title: string): (r: Option<string>)
    ensures r.None? <==> hash == ""
  {
    MagnetUri(hash, title, TrackerList)
  }

  /** The `tr=` fields the tracker parameters split into. */
  function TrackerFields(vs: seq<string>): (r: seq<string>)
    ensures |r| == |vs|
    ensures forall k :: 0 <= k < |vs| ==> r[k] == "tr=" + vs[k]
  {
    if vs == [] then [] else ["tr=" + vs[0]] + TrackerFields(vs[1..])
  }

  lemma {:induction false} SplitTrackerParams(a: string, vs: seq<string>)
    requires '&' !in a
    requires forall k :: 0 <= k < |vs| ==> '&' !in vs[k]
    decreases |vs|
    ensures Split(a + TrackerParams(vs), '&') == [a] + TrackerFields(vs)
  {
    if vs == [] {
      assert a + TrackerParams(vs) == a;
      SplitNoSeparator(a, '&');
    } else {
      var field := "tr=" + vs[0];
      var rest := TrackerParams(vs[1..]);
      assert '&' !in field by {
        assert field == ['t', 'r', '='] + vs[0];
      }
      assert a + TrackerParams(vs) == a + ['&'] + (field + rest);
      SplitAtFirst(a, '&', field + rest);
      SplitTrackerParams(field, vs[1..]);
    }
  }

  lemma EncodedTrackersHaveNoDelimiters(ts: seq<string>)
    ensures forall k :: 0 <= k < |ts| ==> '&' !in EncodeAll(ts)[k]
  {
    forall k | 0 <= k < |ts| ensures '&' !in EncodeAll(ts)[k] {
      EncodeHasNoDelimiters(ts[k]);
    }
  }

  /** The field structure of a magnet URI whose values hold no `&`. */
  lemma SplitMagnetShape(head: string, dn: string, vs: seq<string>)
    requires '&' !in head && '&' !in dn
    requires forall k :: 0 <= k < |vs| ==> '&' !in vs[k]
    ensures Split(head + "&dn=" + dn + TrackerParams(vs), '&')
         == [head, "dn=" + dn] + TrackerFields(vs)
  {
    var field := "dn=" + dn;
    assert '&' !in field by {
      assert field == ['d', 'n', '='] + dn;
    }
    assert head + "&dn=" + dn + TrackerParams(vs) == head + ['&'] + (field + TrackerParams(vs));
    SplitAtFirst(head, '&', field + TrackerParams(vs));
    SplitTrackerParams(field, vs);
  }

  /** Each field is `tr=` followed by the escaped form of the tracker at the same position. */
  predicate DecodesToTrackers(fields: seq<string>, trackers: seq<string>) {
    && |fields| == |trackers|
    && forall k :: 0 <= k < |fields| ==>
         |fields[k]| >= 3 && fields[k][..3] == "tr=" && Decode(fields[k][3..]) == Some(trackers[k])
  }

  /**
   * Split on `&`, a magnet URI for a hash without `&` falls into the `xt`
   * field, the `dn` field and one `tr` field per tracker, in list order.
   */
  lemma MagnetFields(hash: string, title: string, trackers: seq<string>)
    requires hash != "" && '&' !in hash
    ensures MagnetUri(hash, title, trackers).Some?
    ensures Split(MagnetUri(hash, title, trackers).value, '&')
         == [MagnetPrefix + hash, "dn=" + Encode(title)] + TrackerFields(EncodeAll(trackers))
  {
    EncodeHasNoDelimiters(title);
    EncodedTrackersHaveNoDelimiters(trackers);
    SplitMagnetShape(MagnetPrefix + hash, Encode(title), EncodeAll(trackers));
  }

  /**
   * The fields of a magnet URI as a reader sees them: the hash verbatim, a
   * `dn` field whose value decodes to the title, and one `tr` field per
   * tracker decoding to that tracker, in list order.
   */
  predicate IsMagnetFieldsOf(fields: seq<string>, hash: string, title: string, trackers: seq<string>) {
    && |fields| == |trackers| + 2
    && fields[0] == MagnetPrefix + hash
    && |fields[1]| >= 3 && fields[1][..3] == "dn=" && Decode(fields[1][3..]) == Some(title)
    && DecodesToTrackers(fields[2..], trackers)
  }

  /**
   * For a 40-hex-digit hash, splitting the URI on `&` recovers the hash, the
   * title and every tracker, in order.
   */
  lemma MagnetUriRoundTrip(hash: string, title: string, trackers: seq<string>)
    requires IsInfoHash(hash)
    ensures MagnetUri(hash, title, trackers).Some?
    ensures IsMagnetFieldsOf(Split(MagnetUri(hash, title, trackers).value, '&'), hash, title, trackers)
  {
    assert '&' !in hash by {
      forall i | 0 <= i < |hash| ensures hash[i] != '&' {
        assert IsHexDigit(hash[i]);
      }
    }
    MagnetFields(hash, title, trackers);
    var fields := Split(MagnetUri(hash, title, trackers).value, '&');
    assert fields[1][3..] == Encode(title);
    DecodeEncode(title);
    forall k | 0 <= k < |trackers|
      ensures |fields[2..][k]| >= 3 && fields[2..][k][..3] == "tr="
      ensures Decode(fields[2..][k][3..]) == Some(trackers[k])
    {
      assert fields[2..][k] == "tr=" + Encode(trackers[k]);
      assert fields[2..][k][3..] == Encode(trackers[k]);
      DecodeEncode(trackers[k]);
    }
  }

  /**
   * For a 40-hex-digit hash the URI of `createMagnetUrl` splits on `&` into
   * seven fields: the hash verbatim, the `dn` field decoding to the title, and
   * five `tr` fields decoding to the five trackers in order.
   */
  lemma CreateMagnetUrlFields(hash: string, title: string)
    requires IsInfoHash(hash)
    ensures CreateMagnetUrl(hash, title).Some?
    ensures IsMagnetFieldsOf(Split(CreateMagnetUrl(hash, title).value, '&'), hash, title, TrackerList)
  {
    MagnetUriRoundTrip(hash, title, TrackerList);
  }
}
