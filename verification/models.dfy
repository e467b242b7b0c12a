/** The two record types of the pipeline. */
module Models {
  import opened Geometry

  /** One 1 km grid cell: its identifier, centre and square boundary. */
  datatype GridCell = GridCell(id: string, centerX: real, centerY: real, geometry: Polygon)

  /** One postcode location with its point geometry. */
  datatype PostcodePoint = PostcodePoint(postcode: string, easting: real, northing: real, geometry: Point)
}
