/** The static catalog of playable videos (`cloudVideos` in server.js). */
module Catalog {

  /** One catalog entry. The ISO-8601 `uploadedAt` string of the source is
      kept as the number of seconds since the Unix epoch that it denotes. */
  datatype VideoEntry = VideoEntry(
    id: string,
    title: string,
    embedUrl: string,
    posterUrl: string,
    uploadedAt: int)

  /** The ids of a catalog, in catalog order (`cloudVideos.map(v => v.id)`). */
  function Ids(catalog: seq<VideoEntry>): (ids: seq<string>)
    ensures |ids| == |catalog|
    ensures forall i :: 0 <= i < |catalog| ==> ids[i] == catalog[i].id
  {
    if catalog == [] then [] else [catalog[0].id] + Ids(catalog[1..])
  }

  /** The deployed catalog: three Cloudflare Stream videos. */
  const CloudVideos: seq<VideoEntry> := [
    VideoEntry(
      "b8a7d19091bc6407bcb56587eef43cfb",
      "Cloudflare Stream: Launch Deck",
      "https://customer-jo4j2pl3ibe2d4s4.cloudflarestream.com/b8a7d19091bc6407bcb56587eef43cfb/iframe?poster=https%3A%2F%2Fcustomer-jo4j2pl3ibe2d4s4.cloudflarestream.com%2Fb8a7d19091bc6407bcb56587eef43cfb%2Fthumbnails%2Fthumbnail.jpg%3Ftime%3D%26height%3D600",
      "https://customer-jo4j2pl3ibe2d4s4.cloudflarestream.com/b8a7d19091bc6407bcb56587eef43cfb/thumbnails/thumbnail.jpg?time=&height=600",
      1727892000),  // 2024-10-02T18:00:00Z
    VideoEntry(
      "6406a711dca66a2cf65f221c76a0934f",
      "Cloudflare Stream: Platform Walkthrough",
      "https://customer-jo4j2pl3ibe2d4s4.cloudflarestream.com/6406a711dca66a2cf65f221c76a0934f/iframe?poster=https%3A%2F%2Fcustomer-jo4j2pl3ibe2d4s4.cloudflarestream.com%2F6406a711dca66a2cf65f221c76a0934f%2Fthumbnails%2Fthumbnail.jpg%3Ftime%3D%26height%3D600",
      "https://customer-jo4j2pl3ibe2d4s4.cloudflarestream.com/6406a711dca66a2cf65f221c76a0934f/thumbnails/thumbnail.jpg?time=&height=600",
      1728151200),  // 2024-10-05T18:00:00Z
    VideoEntry(
      "856d7c5b0a033bc414d330aa998b97fa",
      "Cloudflare Stream: Edge Delivery",
      "https://customer-jo4j2pl3ibe2d4s4.cloudflarestream.com/856d7c5b0a033bc414d330aa998b97fa/iframe?poster=https%3A%2F%2Fcustomer-jo4j2pl3ibe2d4s4.cloudflarestream.com%2F856d7c5b0a033bc414d330aa998b97fa%2Fthumbnails%2Fthumbnail.jpg%3Ftime%3D%26height%3D600",
      "https://customer-jo4j2pl3ibe2d4s4.cloudflarestream.com/856d7c5b0a033bc414d330aa998b97fa/thumbnails/thumbnail.jpg?time=&height=600",
      1728410400)   // 2024-10-08T18:00:00Z
  ]

  /** The deployed catalog has three entries with distinct ids, listed from
      the oldest upload to the newest. */
  lemma CloudCatalog()
    ensures |CloudVideos| == 3
    ensures forall i, j :: 0 <= i < j < |CloudVideos| ==> CloudVideos[i].id != CloudVideos[j].id
    ensures forall i :: 0 <= i < |CloudVideos| - 1 ==> CloudVideos[i].uploadedAt < CloudVideos[i + 1].uploadedAt
  {
    assert CloudVideos[0].id[0] == 'b' && CloudVideos[1].id[0] == '6' && CloudVideos[2].id[0] == '8';
  }
}
