/** The value types the extractor passes between its parts. */
module CdsTypes {
  import opened JavaInt

  /**
   * `Description`: one chunk of Browse result XML, with the index of its first
   * entry and the number of entries it holds. Its three fields are final and
   * the constructor stores its arguments unchanged, without validation, so it
   * is a plain value; `getStart`, `getNumber` and `getXml` are the field selectors.
   */
  datatype Description = Description(start: Int32, number: Int32, xml: string)

  /**
   * What the core reads of a `CdsObject`: its object ID and whether it is a
   * container. How a `CdsObject` is built from its element is not part of this model.
   */
  datatype CdsObject = CdsObject(objectId: string, isContainer: bool)
}
