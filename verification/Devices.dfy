/** Compute devices: a backend and an index within it. */
module Devices {

  datatype Backend = Cpu | Cuda | Metal | Vulkan

  datatype Device = Device(backend: Backend, index: int)

  const CPU: Device := Device(Cpu, 0)
}
