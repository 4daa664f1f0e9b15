/** A 3D point. The source stores three 32-bit floats; this model keeps
    the IEEE 754 bit pattern of each coordinate, as read big-endian. */
module Geom {
  import opened Nom

  datatype Point = Point(x: U32, y: U32, z: U32)
}
