/** The restaurant list of the admin site shows a shortened address column. */
module Admin {
  import opened Models

  /** Addresses longer than this are cut. */
  const PreviewLength: nat := 50

  const Ellipsis: string := "..."

  function Min(a: nat, b: nat): nat
  {
    if a < b then a else b
  }

  /**
   The address as shown in the admin list: short addresses are kept whole, a
   long one is cut to its first fifty characters followed by "...".
   */
  function AddressPreview(obj: Restaurant): (r: string)
    ensures |obj.address| <= PreviewLength ==> r == obj.address
    ensures |obj.address| > PreviewLength ==> r == obj.address[..PreviewLength] + Ellipsis
    ensures |r| <= PreviewLength + |Ellipsis|
    ensures var n := Min(|obj.address|, PreviewLength); |r| >= n && r[..n] == obj.address[..n]
  {
    var address := obj.address;
    if |address| > PreviewLength then address[..PreviewLength] + Ellipsis else address
  }

  /** Shortening an already shortened address changes nothing. */
  lemma AddressPreviewIdempotent(obj: Restaurant)
    ensures AddressPreview(obj.(address := AddressPreview(obj))) == AddressPreview(obj)
  {
  }

  /**
   The preview equals the address exactly for short addresses and for
   53-character addresses whose last three characters already are "...".
   */
  lemma AddressPreviewFixpoints(obj: Restaurant)
    ensures AddressPreview(obj) == obj.address <==>
              |obj.address| <= PreviewLength
              || (|obj.address| == PreviewLength + |Ellipsis| && obj.address[PreviewLength..] == Ellipsis)
  {
  }
}
