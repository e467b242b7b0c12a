/** Configuration and schema constants of the pipeline. */
module Config {

  /** Side of one grid cell, in metres (1 km cells). */
  const GridCellSizeM: int := 1000

  /** Half the side of a cell, as the float `GRID_CELL_SIZE_M / 2`. */
  const HalfCell: real := GridCellSizeM as real / 2.0

  /** Columns a NOx grid table must carry: the cell-centre easting and northing. */
  const NoxRequiredColumns: seq<string> := ["X", "Y"]

  /** Columns a postcode-directory table must carry. */
  const PostcodeRequiredColumns: seq<string> := ["pcd", "oseast1m", "osnrth1m"]

  const PostcodeColumn: string := "pcd"
  const EastingColumn: string := "oseast1m"
  const NorthingColumn: string := "osnrth1m"

  /** The geometry column a GeoDataFrame adds. */
  const GeometryColumn: string := "geometry"

  /** Default grid-id column of the grid-cell conversion. */
  const DefaultGridIdColumn: string := "GridCode"

  /** Default termination-date column of the row cleaner. */
  const DefaultTerminationColumn: string := "doterm"
}
