/**
 * The side-car metadata of a saved document (src/models/metadata.rs): for
 * every embedded image, its id, its bytes as base64 text, and its size.
 */
module Metadata {
  import opened Document

  type byte = b: nat | b < 256

  datatype ImageMetadata = ImageMetadata(id: string, data: string, width: u32, height: u32)

  datatype DocumentMetadata = DocumentMetadata(images: map<string, ImageMetadata>)

  /** Decoded image bytes by image id, as the editor caches them. */
  type ImageData = map<string, seq<byte>>
}
