/** Errors raised by the media adapter, and the result type that carries them. */
module Results {

  /** One constructor per exception the adapter can raise. */
  datatype Error =
    | XmlSyntax                                      // the XML library rejects the text
    | NotOneRoot                                     // "XML must have only one root node"
    | RootMismatch(found: string, expected: string)  // root name is not the media type's name
    | NoContent(element: string)                     // `childNodes[0]` of a matching element is out of range
    | NoData(element: string)                        // the first child of a matching element has no `data`
    | JsonSyntax                                     // the JSON library rejects the text
    | NotAMapping                                    // the decoded JSON value cannot be unpacked with `**`
    | UnexpectedFields(names: set<string>)           // keyword arguments that are not fields of the type

  datatype Result<+T> = Ok(value: T) | Err(error: Error)
}
